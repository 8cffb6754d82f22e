/**
 * The checks run on the input data before an optimizer is built: every
 * dimension of the catalog against its pool column, every category range
 * on its own and against the panel size, the participation column and the
 * pool's index. The first failing check, in the order the checks run,
 * decides the reported reason.
 */
module Validation {

  import opened Wrappers
  import opened Seqs
  import opened Frame
  import opened Catalog
  import Formulation

  datatype DataError =
    | MissingDimensionColumn(dimension: string)
    | UnknownPoolValues(dimension: string, values: set<Option<string>>)
    | UnusedCategories(dimension: string, names: set<string>)
    | NegativeBound(dimension: string, category: string)
    | MinAboveMax(dimension: string, category: string)
    | MinSumExceedsPanel(dimension: string, panelSize: int)
    | MissingParticipationColumn(column: string)
    | InvalidParticipation(column: string, values: set<Option<string>>)
    | DuplicatedIndex(ids: seq<string>)

  /** The distinct cells of column `c`, an empty cell included. */
  function ColumnValues(f: DataFrame, c: string): (r: set<Option<string>>)
    ensures forall i :: 0 <= i < |f.rows| ==> Cell(f, i, c) in r
    ensures forall v :: v in r ==> exists i :: 0 <= i < |f.rows| && Cell(f, i, c) == v
  {
    set i: nat | i < |f.rows| :: Cell(f, i, c)
  }

  /** Some row holds `v` in column `c`. */
  predicate Occurs(f: DataFrame, c: string, v: Option<string>) {
    exists i :: 0 <= i < |f.rows| && Cell(f, i, c) == v
  }

  /** The category names of a dimension. */
  function CategoryNames(ranges: seq<CategoryRanges>): (r: set<string>)
    ensures forall k :: 0 <= k < |ranges| ==> ranges[k].name in r
    ensures forall x :: x in r ==> exists k :: 0 <= k < |ranges| && ranges[k].name == x
  {
    set k: nat | k < |ranges| :: ranges[k].name
  }

  /** Pool values of the dimension that name no category (an empty cell names none). */
  function UnknownValues(f: DataFrame, e: DimensionEntry): set<Option<string>> {
    set v | v in ColumnValues(f, e.name) && (v.None? || v.value !in CategoryNames(e.ranges))
  }

  /** Categories of the dimension that no person of the pool has. */
  function UnusedNames(f: DataFrame, e: DimensionEntry): set<string> {
    set x | x in CategoryNames(e.ranges) && Some(x) !in ColumnValues(f, e.name)
  }

  /** A range is well formed when both bounds are non-negative and min <= max. */
  predicate BoundsOk(rg: CategoryRanges) {
    0 <= rg.min <= rg.max
  }

  /** The first ill-formed range, in order, with the first of its faults. */
  function BoundsError(dim: string, ranges: seq<CategoryRanges>): (r: Option<DataError>)
    ensures r.None? <==> forall k :: 0 <= k < |ranges| ==> BoundsOk(ranges[k])
    ensures r.Some? ==> exists k :: (0 <= k < |ranges| && !BoundsOk(ranges[k])
      && (forall j :: 0 <= j < k ==> BoundsOk(ranges[j]))
      && r.value == if ranges[k].min < 0 || ranges[k].max < 0 then NegativeBound(dim, ranges[k].name)
                    else MinAboveMax(dim, ranges[k].name))
  {
    if ranges == [] then None
    else
      var rg := ranges[0];
      if rg.min < 0 || rg.max < 0 then Some(NegativeBound(dim, rg.name))
      else if rg.min > rg.max then Some(MinAboveMax(dim, rg.name))
      else
        var rest := BoundsError(dim, ranges[1..]);
        assert forall k :: 1 <= k < |ranges| ==> ranges[k] == ranges[1..][k - 1];
        if rest.Some? then
          var k :| 0 <= k < |ranges[1..]| && !BoundsOk(ranges[1..][k])
            && (forall j :: 0 <= j < k ==> BoundsOk(ranges[1..][j]))
            && rest.value == if ranges[1..][k].min < 0 || ranges[1..][k].max < 0 then NegativeBound(dim, ranges[1..][k].name)
                             else MinAboveMax(dim, ranges[1..][k].name);
          assert ranges[k + 1] == ranges[1..][k];
          rest
        else rest
  }

  function MinSum(ranges: seq<CategoryRanges>): int {
    if ranges == [] then 0 else ranges[0].min + MinSum(ranges[1..])
  }

  /** The checks of one dimension, in the order they run. */
  function DimensionError(f: DataFrame, e: DimensionEntry, panelSize: int): (r: Option<DataError>)
    ensures r.Some? ==>
      !r.value.MissingParticipationColumn? && !r.value.InvalidParticipation? && !r.value.DuplicatedIndex?
      && r.value.dimension == e.name
    ensures r.None? ==> e.name in f.columns && MinSum(e.ranges) <= panelSize
  {
    if e.name !in f.columns then Some(MissingDimensionColumn(e.name))
    else if UnknownValues(f, e) != {} then Some(UnknownPoolValues(e.name, UnknownValues(f, e)))
    else if UnusedNames(f, e) != {} then Some(UnusedCategories(e.name, UnusedNames(f, e)))
    else if BoundsError(e.name, e.ranges).Some? then BoundsError(e.name, e.ranges)
    else if MinSum(e.ranges) > panelSize then Some(MinSumExceedsPanel(e.name, panelSize))
    else None
  }

  /** The first dimension, in catalog order, that fails a check. */
  function CatalogError(f: DataFrame, catalog: seq<DimensionEntry>, panelSize: int): (r: Option<DataError>)
    ensures r.None? <==> forall d :: 0 <= d < |catalog| ==> DimensionError(f, catalog[d], panelSize).None?
    ensures r.Some? ==> exists d :: (0 <= d < |catalog| && DimensionError(f, catalog[d], panelSize) == r
      && forall c :: 0 <= c < d ==> DimensionError(f, catalog[c], panelSize).None?)
  {
    if catalog == [] then None
    else
      var first := DimensionError(f, catalog[0], panelSize);
      if first.Some? then first
      else
        var rest := CatalogError(f, catalog[1..], panelSize);
        assert forall d :: 1 <= d < |catalog| ==> catalog[d] == catalog[1..][d - 1];
        if rest.Some? then
          var d :| 0 <= d < |catalog[1..]| && DimensionError(f, catalog[1..][d], panelSize) == rest
            && forall c :: 0 <= c < d ==> DimensionError(f, catalog[1..][c], panelSize).None?;
          assert catalog[d + 1] == catalog[1..][d];
          rest
        else rest
  }

  /** The participation values a pool may hold. */
  const AllowedParticipation: set<string> := {"yes", "no", "?"}

  /** Participation values outside the allowed ones (an empty cell is one of them). */
  function InvalidValues(f: DataFrame, c: string): set<Option<string>> {
    set v | v in ColumnValues(f, c) && (v.None? || v.value !in AllowedParticipation)
  }

  /** The index values of the rows whose value already occurred above them, top to bottom. */
  function LaterOccurrences(ids: seq<string>): (r: seq<string>)
    ensures forall x :: x in r <==> exists i, j :: 0 <= i < j < |ids| && ids[i] == x && ids[j] == x
  {
    if ids == [] then []
    else
      var k := |ids| - 1;
      var prefix := ids[..k];
      var p := LaterOccurrences(prefix);
      assert forall i :: 0 <= i < k ==> prefix[i] == ids[i];
      var r := p + if ids[k] in prefix then [ids[k]] else [];
      assert forall x :: x in r <==> exists i, j :: 0 <= i < j < |ids| && ids[i] == x && ids[j] == x by {
        forall x | exists i, j :: 0 <= i < j < |ids| && ids[i] == x && ids[j] == x
          ensures x in r
        {
          var i, j :| 0 <= i < j < |ids| && ids[i] == x && ids[j] == x;
          if j < k {
            assert prefix[i] == x && prefix[j] == x;
          } else {
            assert prefix[i] == x;
          }
        }
        forall x | x in r
          ensures exists i, j :: 0 <= i < j < |ids| && ids[i] == x && ids[j] == x
        {
          if x !in p {
            var i :| 0 <= i < k && prefix[i] == x;
            assert ids[i] == x && ids[k] == x;
          }
        }
      }
      r
  }

  /** The distinct index values that occur more than once, in order of their second occurrence. */
  function DuplicatedIds(ids: seq<string>): (r: seq<string>)
    ensures Distinct(r)
    ensures forall x :: x in r <==> exists i, j :: 0 <= i < j < |ids| && ids[i] == x && ids[j] == x
    ensures r == [] <==> Distinct(ids)
  {
    var r := Unique(LaterOccurrences(ids));
    var later := LaterOccurrences(ids);
    assert Distinct(ids) <==> later == [] by {
      if !Distinct(ids) {
        var i, j :| 0 <= i < j < |ids| && ids[i] == ids[j];
        assert ids[i] in later;
      }
      if later != [] {
        assert later[0] in later;
      }
    }
    assert later != [] ==> later[0] in r;
    assert forall x :: x in r <==> x in later by {
      forall x | x in later ensures x in r {
        var i :| 0 <= i < |later| && later[i] == x;
      }
      forall x | x in r ensures x in later {
        var i :| 0 <= i < |r| && r[i] == x;
      }
    }
    r
  }

  /**
   * The outcome of checking the pool `f` (its participation column `col`
   * included) against `catalog` for a panel of `panelSize`: the first check
   * that fails, or `Pass`.
   */
  function VerifyData(f: DataFrame, catalog: seq<DimensionEntry>, col: string, panelSize: int): (r: Outcome<DataError>)
    ensures r.Fail? && r.error.MissingParticipationColumn? ==> r.error.column == col && col !in f.columns
    ensures r.Fail? && (r.error.InvalidParticipation? || r.error.DuplicatedIndex?) ==> col in f.columns
    ensures r.Pass? ==> col in f.columns && DuplicatedIds(Index(f)) == []
  {
    var dimensionError := CatalogError(f, catalog, panelSize);
    if dimensionError.Some? then Fail(dimensionError.value)
    else if col !in f.columns then Fail(MissingParticipationColumn(col))
    else if InvalidValues(f, col) != {} then Fail(InvalidParticipation(col, InvalidValues(f, col)))
    else if DuplicatedIds(Index(f)) != [] then Fail(DuplicatedIndex(DuplicatedIds(Index(f))))
    else Pass
  }

  // ---------------------------------------------------------------------
  // What passing the checks means
  // ---------------------------------------------------------------------

  /**
   * Dimension `e` agrees with the pool: the pool has its column, every cell
   * of it names a category, every category is somebody's, every range is
   * well formed and the minimums fit in the panel together.
   */
  predicate DimensionValid(f: DataFrame, e: DimensionEntry, panelSize: int) {
    && e.name in f.columns
    && (forall i :: 0 <= i < |f.rows| ==> Cell(f, i, e.name).Some? && Cell(f, i, e.name).value in CategoryNames(e.ranges))
    && (forall k :: 0 <= k < |e.ranges| ==> Occurs(f, e.name, Some(e.ranges[k].name)))
    && (forall k :: 0 <= k < |e.ranges| ==> BoundsOk(e.ranges[k]))
    && MinSum(e.ranges) <= panelSize
  }

  /** Everything the checks demand, stated without their order. */
  predicate Accepted(f: DataFrame, catalog: seq<DimensionEntry>, col: string, panelSize: int) {
    && (forall d :: 0 <= d < |catalog| ==> DimensionValid(f, catalog[d], panelSize))
    && col in f.columns
    && (forall i :: 0 <= i < |f.rows| ==> Cell(f, i, col).Some? && Cell(f, i, col).value in AllowedParticipation)
    && Distinct(Index(f))
  }

  lemma UnknownValuesEmpty(f: DataFrame, e: DimensionEntry)
    ensures UnknownValues(f, e) == {} <==>
      forall i :: 0 <= i < |f.rows| ==> Cell(f, i, e.name).Some? && Cell(f, i, e.name).value in CategoryNames(e.ranges)
  {
    if UnknownValues(f, e) == {} {
      forall i | 0 <= i < |f.rows|
        ensures Cell(f, i, e.name).Some? && Cell(f, i, e.name).value in CategoryNames(e.ranges)
      {
        var v := Cell(f, i, e.name);
        assert v in ColumnValues(f, e.name);
        assert v !in UnknownValues(f, e);
      }
    }
  }

  lemma UnusedNamesMember(f: DataFrame, e: DimensionEntry, x: string)
    ensures x in UnusedNames(f, e) <==> x in CategoryNames(e.ranges) && Some(x) !in ColumnValues(f, e.name)
  {
  }

  lemma UnusedNamesEmpty(f: DataFrame, e: DimensionEntry)
    ensures UnusedNames(f, e) == {} <==> forall k :: 0 <= k < |e.ranges| ==> Occurs(f, e.name, Some(e.ranges[k].name))
  {
    if UnusedNames(f, e) == {} {
      forall k | 0 <= k < |e.ranges| ensures Occurs(f, e.name, Some(e.ranges[k].name)) {
        UsedCategory(f, e, k);
      }
    } else {
      var x :| x in UnusedNames(f, e);
      UnusedCategory(f, e, x);
    }
  }

  /** With no unused category, category k occurs in the column. */
  lemma UsedCategory(f: DataFrame, e: DimensionEntry, k: nat)
    requires UnusedNames(f, e) == {} && k < |e.ranges|
    ensures Occurs(f, e.name, Some(e.ranges[k].name))
  {
    var x := e.ranges[k].name;
    assert x in CategoryNames(e.ranges);
    UnusedNamesMember(f, e, x);
    assert Some(x) in ColumnValues(f, e.name);
    var i :| 0 <= i < |f.rows| && Cell(f, i, e.name) == Some(x);
  }

  /** An unused category is a range whose name no cell of the column holds. */
  lemma UnusedCategory(f: DataFrame, e: DimensionEntry, x: string)
    requires x in UnusedNames(f, e)
    ensures exists k :: 0 <= k < |e.ranges| && e.ranges[k].name == x && !Occurs(f, e.name, Some(e.ranges[k].name))
  {
    UnusedNamesMember(f, e, x);
    var k :| 0 <= k < |e.ranges| && e.ranges[k].name == x;
    forall i | 0 <= i < |f.rows| ensures Cell(f, i, e.name) != Some(x) {
      assert Cell(f, i, e.name) in ColumnValues(f, e.name);
    }
  }

  /** A dimension passes its checks exactly when it agrees with the pool. */
  lemma DimensionErrorNone(f: DataFrame, e: DimensionEntry, panelSize: int)
    ensures DimensionError(f, e, panelSize).None? <==> DimensionValid(f, e, panelSize)
  {
    UnknownValuesEmpty(f, e);
    UnusedNamesEmpty(f, e);
  }

  /** The checks pass exactly on the data they demand. */
  lemma VerifyDataPass(f: DataFrame, catalog: seq<DimensionEntry>, col: string, panelSize: int)
    ensures VerifyData(f, catalog, col, panelSize) == Pass <==> Accepted(f, catalog, col, panelSize)
  {
    forall d | 0 <= d < |catalog| {
      DimensionErrorNone(f, catalog[d], panelSize);
    }
    InvalidValuesEmpty(f, col);
  }

  lemma InvalidValuesEmpty(f: DataFrame, col: string)
    ensures InvalidValues(f, col) == {} <==>
      forall i :: 0 <= i < |f.rows| ==> Cell(f, i, col).Some? && Cell(f, i, col).value in AllowedParticipation
  {
    if InvalidValues(f, col) == {} {
      forall i | 0 <= i < |f.rows|
        ensures Cell(f, i, col).Some? && Cell(f, i, col).value in AllowedParticipation
      {
        assert Cell(f, i, col) in ColumnValues(f, col);
        assert Cell(f, i, col) !in InvalidValues(f, col);
      }
    }
  }

  /** Every dimension of a catalog whose checks found nothing agrees with the pool. */
  lemma CatalogPassed(f: DataFrame, catalog: seq<DimensionEntry>, panelSize: int)
    requires CatalogError(f, catalog, panelSize).None?
    ensures forall d :: 0 <= d < |catalog| ==> DimensionValid(f, catalog[d], panelSize)
  {
    forall d | 0 <= d < |catalog| {
      DimensionErrorNone(f, catalog[d], panelSize);
    }
  }

  /**
   * A dimension reason comes from the first dimension that fails its checks;
   * every dimension before it agrees with the pool.
   */
  lemma VerifyDataDimensionFailure(f: DataFrame, catalog: seq<DimensionEntry>, col: string, panelSize: int, e: DataError)
    requires VerifyData(f, catalog, col, panelSize) == Fail(e)
    requires !e.MissingParticipationColumn? && !e.InvalidParticipation? && !e.DuplicatedIndex?
    ensures exists d :: (0 <= d < |catalog| && DimensionError(f, catalog[d], panelSize) == Some(e)
      && forall c :: 0 <= c < d ==> DimensionValid(f, catalog[c], panelSize))
  {
    var d :| 0 <= d < |catalog| && DimensionError(f, catalog[d], panelSize) == Some(e)
      && forall c :: 0 <= c < d ==> DimensionError(f, catalog[c], panelSize).None?;
    forall c | 0 <= c < d {
      DimensionErrorNone(f, catalog[c], panelSize);
    }
  }

  /** A missing participation column is reported only once every dimension passed. */
  lemma VerifyDataMissingColumn(f: DataFrame, catalog: seq<DimensionEntry>, col: string, panelSize: int, e: DataError)
    requires VerifyData(f, catalog, col, panelSize) == Fail(e)
    requires e.MissingParticipationColumn?
    ensures forall d :: 0 <= d < |catalog| ==> DimensionValid(f, catalog[d], panelSize)
    ensures e.column == col && col !in f.columns
  {
    CatalogPassed(f, catalog, panelSize);
  }

  /**
   * Invalid participation values are reported with exactly the offending
   * values of the column, once the dimensions and the column passed.
   */
  lemma VerifyDataInvalidParticipation(f: DataFrame, catalog: seq<DimensionEntry>, col: string, panelSize: int, e: DataError)
    requires VerifyData(f, catalog, col, panelSize) == Fail(e)
    requires e.InvalidParticipation?
    ensures forall d :: 0 <= d < |catalog| ==> DimensionValid(f, catalog[d], panelSize)
    ensures col in f.columns && e.column == col && e.values != {}
    ensures forall v :: v in e.values <==>
      (exists i :: 0 <= i < |f.rows| && Cell(f, i, col) == v) && (v.None? || v.value !in AllowedParticipation)
  {
    CatalogPassed(f, catalog, panelSize);
  }

  /**
   * A duplicated index is reported with each repeated id once, after every
   * other check passed.
   */
  lemma VerifyDataDuplicatedIndex(f: DataFrame, catalog: seq<DimensionEntry>, col: string, panelSize: int, e: DataError)
    requires VerifyData(f, catalog, col, panelSize) == Fail(e)
    requires e.DuplicatedIndex?
    ensures forall d :: 0 <= d < |catalog| ==> DimensionValid(f, catalog[d], panelSize)
    ensures col in f.columns
    ensures forall i :: 0 <= i < |f.rows| ==> Cell(f, i, col).Some? && Cell(f, i, col).value in AllowedParticipation
    ensures e.ids != [] && Distinct(e.ids)
    ensures forall x :: x in e.ids <==> exists i, j :: 0 <= i < j < |Index(f)| && Index(f)[i] == x && Index(f)[j] == x
  {
    CatalogPassed(f, catalog, panelSize);
    InvalidValuesEmpty(f, col);
  }

  /** What each single-dimension reason says about the dimension. */
  lemma DimensionErrorMeaning(f: DataFrame, e: DimensionEntry, panelSize: int)
    ensures var r := DimensionError(f, e, panelSize);
      && (r == Some(MissingDimensionColumn(e.name)) <==> e.name !in f.columns)
      && (r.Some? && r.value.UnknownPoolValues? ==>
            e.name in f.columns && r.value.values != {}
            && forall v :: v in r.value.values ==>
                 (exists i :: 0 <= i < |f.rows| && Cell(f, i, e.name) == v) && (v.None? || v.value !in CategoryNames(e.ranges)))
      && (r.Some? && r.value.UnusedCategories? ==>
            e.name in f.columns && r.value.names != {}
            && (forall i :: 0 <= i < |f.rows| ==> Cell(f, i, e.name).Some? && Cell(f, i, e.name).value in CategoryNames(e.ranges))
            && forall x :: x in r.value.names <==>
                 x in CategoryNames(e.ranges) && forall i :: 0 <= i < |f.rows| ==> Cell(f, i, e.name) != Some(x))
      && (r.Some? && (r.value.NegativeBound? || r.value.MinAboveMax?) ==>
            e.name in f.columns && UnknownValues(f, e) == {} && UnusedNames(f, e) == {}
            && r == BoundsError(e.name, e.ranges)
            && exists k :: 0 <= k < |e.ranges| && !BoundsOk(e.ranges[k]) && r.value.category == e.ranges[k].name)
      && (r.Some? && r.value.MinSumExceedsPanel? ==>
            e.name in f.columns && UnknownValues(f, e) == {} && UnusedNames(f, e) == {}
            && (forall k :: 0 <= k < |e.ranges| ==> BoundsOk(e.ranges[k])) && MinSum(e.ranges) > panelSize)
  {
    UnknownValuesEmpty(f, e);
  }

  // ---------------------------------------------------------------------
  // Data that passes the checks builds a model
  // ---------------------------------------------------------------------

  lemma {:induction false} CatalogConstraintsOk(f: DataFrame, catalog: seq<DimensionEntry>)
    requires forall d :: 0 <= d < |catalog| ==> catalog[d].name in f.columns
    ensures Formulation.CatalogConstraints(f, catalog).Ok?
  {
    if catalog != [] {
      CatalogConstraintsOk(f, catalog[..|catalog| - 1]);
    }
  }

  lemma DistinctNotRepeated(ids: seq<string>)
    requires Distinct(ids)
    ensures Formulation.FirstRepeatedFrom(ids, 0).None?
  {
    forall i | 0 <= i < |ids| ensures !Formulation.Repeated(ids, i) {
      assert forall j :: 0 <= j < i ==> ids[..i][j] == ids[j] != ids[i];
      assert forall t :: i < t < |ids| ==> ids[i + 1..][t - i - 1] == ids[t] != ids[i];
    }
  }

  /**
   * An optimizer built from data that passed the checks (its participation
   * column not also a dimension) never fails on the index or on a missing
   * dimension column: the model is built unless an intersection table has
   * no column at all. Every participation value is one of the allowed ones.
   */
  lemma AcceptedDataBuilds(f: DataFrame, catalog: seq<DimensionEntry>, col: string, panelSize: int,
                           opt: Formulation.DiversityOptimizer)
    requires VerifyData(f, catalog, col, panelSize) == Pass
    requires forall d :: 0 <= d < |catalog| ==> catalog[d].name != col
    requires opt.poolMembers == DropColumn(f, col) && opt.participatingCol == Column(f, col)
    requires Formulation.WellFormed(opt)
    ensures forall i :: 0 <= i < |opt.participatingCol| ==>
      opt.participatingCol[i].Some? && opt.participatingCol[i].value in AllowedParticipation
    ensures Formulation.BuildModel(opt, catalog, panelSize).Ok?
      || Formulation.BuildModel(opt, catalog, panelSize) == Err(Formulation.EmptyIntersectionTable)
  {
    VerifyDataPass(f, catalog, col, panelSize);
    forall d | 0 <= d < |catalog| ensures catalog[d].name in opt.poolMembers.columns {
      assert DimensionValid(f, catalog[d], panelSize);
    }
    CatalogConstraintsOk(opt.poolMembers, catalog);
    assert Index(opt.poolMembers) == Index(f);
    DistinctNotRepeated(Index(f));
  }
}
