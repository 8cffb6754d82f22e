/**
 * The diversity optimizer: its state, fixed at construction (participation
 * flags, the pool without the participation column, the intersection data
 * and the retained one-hot matrices), and the assembly of the linear model
 * handed to the solver.
 */
module Formulation {

  import opened Wrappers
  import opened Frame
  import opened Combinations
  import opened Intersections
  import opened Encoding
  import opened LinearModel
  import opened Catalog

  datatype DiversityOptimizer = DiversityOptimizer(
    /** The participation cell of every row, in row order. */
    participatingCol: seq<Option<string>>,
    /** The pool without the participation column. */
    poolMembers: DataFrame,
    intersectionsData: AllIntersectionsData,
    allOhe: seq<Matrix>)

  datatype OptimizerError =
    | MissingParticipationColumn(column: string)
    | EnumerationFailed(combination: seq<string>)
    /** Two rows share an index value, so a participation lookup yields several cells. */
    | AmbiguousParticipation(id: string)
    | MissingDimensionColumn(dimension: string)
    /** A retained table has no label, so its ideal size divides by zero. */
    | EmptyIntersectionTable

  /** One participation cell per row, and every matrix has one row per person, each as wide as the matrix. */
  predicate WellFormed(opt: DiversityOptimizer) {
    && |opt.participatingCol| == |opt.poolMembers.rows|
    && forall t :: 0 <= t < |opt.allOhe| ==> IsMatrixOf(opt.allOhe[t], |opt.poolMembers.rows|)
  }

  predicate IsMatrixOf(m: Matrix, n: nat) {
    |m.cells| == n && forall i :: 0 <= i < n ==> |m.cells[i]| == m.width
  }

  lemma EncodingsAreMatrices(f: DataFrame, d: AllIntersectionsData)
    requires forall c :: c in d.allDimsCombs ==> c in d.data
    requires forall c :: c in d.data ==> PrepareDimensionsData(f, c) == Ok(d.data[c])
    ensures forall t :: 0 <= t < |Encodings(d.data, d.allDimsCombs)| ==>
      IsMatrixOf(Encodings(d.data, d.allDimsCombs)[t], |f.rows|)
  {
    var kept := RetainedCombs(d.data, d.allDimsCombs);
    RetainedCombsSpec(d.data, d.allDimsCombs);
    forall t | 0 <= t < |kept| ensures IsMatrixOf(OneHot(d.data[kept[t]]), |f.rows|) {
      assert kept[t] in kept;
      PrepareDimensionsDataShape(f, kept[t]);
    }
  }

  /**
   * `DiversityOptimizer(pool_members_df, participating_col)`: reads the
   * participation column, drops it, enumerates the intersections of the
   * remaining columns and encodes the retained tables.
   */
  method CreateDiversityOptimizer(poolMembersDf: DataFrame, participatingCol: string)
    returns (r: Result<DiversityOptimizer, OptimizerError>)
    ensures participatingCol !in poolMembersDf.columns ==> r == Err(MissingParticipationColumn(participatingCol))
    ensures r.Ok? ==>
      && WellFormed(r.value)
      && r.value.participatingCol == Column(poolMembersDf, participatingCol)
      && r.value.poolMembers == DropColumn(poolMembersDf, participatingCol)
      && r.value.intersectionsData.allDimsCombs == AllDimsCombs(r.value.poolMembers.columns)
      && (forall c :: c in r.value.intersectionsData.data <==> c in r.value.intersectionsData.allDimsCombs)
      && (forall c :: c in r.value.intersectionsData.data ==>
            PrepareDimensionsData(r.value.poolMembers, c) == Ok(r.value.intersectionsData.data[c]))
      && r.value.allOhe == Encodings(r.value.intersectionsData.data, r.value.intersectionsData.allDimsCombs)
    ensures r.Err? && participatingCol in poolMembersDf.columns ==>
      exists k: nat ::
        && FailsFirstAt(DropColumn(poolMembersDf, participatingCol), AllDimsCombs(DropColumn(poolMembersDf, participatingCol).columns), k)
        && r.error == EnumerationFailed(AllDimsCombs(DropColumn(poolMembersDf, participatingCol).columns)[k])
  {
    if participatingCol !in poolMembersDf.columns {
      return Err(MissingParticipationColumn(participatingCol));
    }
    var participation := Column(poolMembersDf, participatingCol);
    var pool := DropColumn(poolMembersDf, participatingCol);
    var prepared := PrepareAllData(pool);
    if prepared.Err? {
      return Err(EnumerationFailed(prepared.error.combination));
    }
    var data := prepared.value;
    var allOhe := CreateAllOneHotEncodings(data);
    EncodingsAreMatrices(pool, data);
    r := Ok(DiversityOptimizer(participation, pool, data, allOhe));
  }

  // ---------------------------------------------------------------------
  // The model, as a function of the optimizer, the catalog and the panel size
  // ---------------------------------------------------------------------

  /** Row `i`'s index value occurs in another row too. */
  predicate Repeated(ids: seq<string>, i: nat)
    requires i < |ids|
  {
    ids[i] in ids[..i] || ids[i] in ids[i + 1..]
  }

  /** The first row at or after `i` whose index value is repeated. */
  function FirstRepeatedFrom(ids: seq<string>, i: nat): (r: Option<nat>)
    ensures r.Some? ==> i <= r.value < |ids| && Repeated(ids, r.value)
    ensures r.Some? ==> forall j :: i <= j < r.value ==> !Repeated(ids, j)
    ensures r.None? ==> forall j :: i <= j < |ids| ==> !Repeated(ids, j)
    decreases |ids| - i
  {
    if i >= |ids| then None
    else if Repeated(ids, i) then Some(i)
    else FirstRepeatedFrom(ids, i + 1)
  }

  /** The bound a participation value forces on person `i`: "yes" gives x >= 1, "no" gives x <= 0. */
  function ForcingOf(i: nat, p: Option<string>): seq<Constraint> {
    if p == Some("yes") then [Constraint(LinExpr([Term(i, 1.0)], -1.0), AtLeast)]
    else if p == Some("no") then [Constraint(LinExpr([Term(i, 1.0)], 0.0), AtMost)]
    else []
  }

  function ForcingConstraints(participation: seq<Option<string>>): (r: seq<Constraint>)
    ensures |r| <= |participation|
  {
    if participation == [] then []
    else
      var k := |participation| - 1;
      ForcingConstraints(participation[..k]) + ForcingOf(k, participation[k])
  }

  /** One unit term per row among the first `k` whose cell in `dim` is `name`. */
  function MemberTerms(f: DataFrame, dim: string, name: string, k: nat): seq<Term>
    requires k <= |f.rows|
  {
    if k == 0 then []
    else MemberTerms(f, dim, name, k - 1) + if Cell(f, k - 1, dim) == Some(name) then [Term(k - 1, 1.0)] else []
  }

  /** For every range of dimension `dim`: members >= min and members <= max. */
  function RangeConstraints(f: DataFrame, dim: string, ranges: seq<CategoryRanges>): (r: seq<Constraint>)
    ensures |r| == 2 * |ranges|
  {
    if ranges == [] then []
    else
      var rg := ranges[|ranges| - 1];
      var members := MemberTerms(f, dim, rg.name, |f.rows|);
      RangeConstraints(f, dim, ranges[..|ranges| - 1])
        + [Constraint(LinExpr(members, -(rg.min as real)), AtLeast),
           Constraint(LinExpr(members, -(rg.max as real)), AtMost)]
  }

  /**
   * The range constraints of every dimension in catalog order; a dimension
   * with a range but no column of that name in the pool fails.
   */
  function CatalogConstraints(f: DataFrame, catalog: seq<DimensionEntry>): (r: Result<seq<Constraint>, OptimizerError>)
    ensures r.Err? ==> exists d :: (0 <= d < |catalog| && catalog[d].ranges != [] && catalog[d].name !in f.columns
      && r.error == MissingDimensionColumn(catalog[d].name))
  {
    if catalog == [] then Ok([])
    else
      var prev := CatalogConstraints(f, catalog[..|catalog| - 1]);
      var e := catalog[|catalog| - 1];
      if prev.Err? then prev
      else if e.ranges != [] && e.name !in f.columns then Err(MissingDimensionColumn(e.name))
      else Ok(prev.value + RangeConstraints(f, e.name, e.ranges))
  }

  /** The sum of all person variables equals the panel size. */
  function PanelSizeConstraint(n: nat, panelSize: int): (r: Constraint)
    ensures r.sense == Equal && r.lhs.constant == -(panelSize as real) && |r.lhs.terms| == n
    ensures forall k :: 0 <= k < n ==> r.lhs.terms[k].v == k && r.lhs.terms[k].coef == 1.0
  {
    Constraint(LinExpr(UnitTerms(n, 0), -(panelSize as real)), Equal)
  }

  /** One column of a retained table and the table's ideal size. */
  datatype DevSlot = DevSlot(column: seq<int>, ideal: real)

  function ColumnOf(m: Matrix, j: nat): (r: seq<int>)
    ensures |r| == |m.cells|
  {
    seq(|m.cells|, i requires 0 <= i < |m.cells| => if j < |m.cells[i]| then m.cells[i][j] else 0)
  }

  /** The ideal size of every cell of a table: the panel size spread evenly over its labels. */
  function Ideal(panelSize: int, width: nat): real
    requires width > 0
  {
    panelSize as real / width as real
  }

  function TableSlots(m: Matrix, panelSize: int): (r: seq<DevSlot>)
    ensures |r| == m.width
  {
    seq(m.width, j requires 0 <= j < m.width => DevSlot(ColumnOf(m, j), Ideal(panelSize, m.width)))
  }

  /** The columns of all tables, table after table. */
  function Slots(ohes: seq<Matrix>, panelSize: int): seq<DevSlot> {
    if ohes == [] then []
    else Slots(ohes[..|ohes| - 1], panelSize) + TableSlots(ohes[|ohes| - 1], panelSize)
  }

  /** `sign` times the occupancy of a column: sum over persons of column[i] * x_i. */
  function SizeTerms(column: seq<int>, sign: real): seq<Term> {
    seq(|column|, i requires 0 <= i < |column| => Term(i, sign * (column[i] as real)))
  }

  /** dev >= size - ideal and dev >= ideal - size, for deviation variable `v`. */
  function DeviationConstraints(s: DevSlot, v: nat): (r: seq<Constraint>)
    ensures |r| == 2 && r[0].sense == AtLeast && r[1].sense == AtLeast
    ensures |r[0].lhs.terms| == |r[1].lhs.terms| == |s.column| + 1
  {
    [Constraint(LinExpr([Term(v, 1.0)] + SizeTerms(s.column, -1.0), s.ideal), AtLeast),
     Constraint(LinExpr([Term(v, 1.0)] + SizeTerms(s.column, 1.0), -s.ideal), AtLeast)]
  }

  /** The deviation constraints of every slot, slot k using variable `base + k`. */
  function AllDeviationConstraints(slots: seq<DevSlot>, base: nat): seq<Constraint> {
    if slots == [] then []
    else
      AllDeviationConstraints(slots[..|slots| - 1], base)
        + DeviationConstraints(slots[|slots| - 1], base + |slots| - 1)
  }

  /** The unweighted sum of `count` consecutive variables starting at `base`. */
  function UnitTerms(count: nat, base: nat): seq<Term> {
    seq(count, k requires 0 <= k < count => Term(base + k, 1.0))
  }

  function Repeat(t: VarType, n: nat): (r: seq<VarType>)
    ensures |r| == n
  {
    seq(n, _ => t)
  }

  /**
   * The model `optimize` builds before calling the solver: one binary
   * variable per person, then one continuous variable per column of each
   * retained table; the forcing constraints, the range constraints, the
   * panel-size constraint and the deviation constraints, in that order;
   * and the sum of the deviation variables as objective.
   */
  function BuildModel(opt: DiversityOptimizer, catalog: seq<DimensionEntry>, panelSize: int): (r: Result<Model, OptimizerError>)
    requires WellFormed(opt)
    ensures r.Err? ==> r.error.AmbiguousParticipation? || r.error.MissingDimensionColumn? || r.error == EmptyIntersectionTable
    ensures r.Err? && r.error.AmbiguousParticipation? ==>
      exists i :: 0 <= i < |Index(opt.poolMembers)| && Index(opt.poolMembers)[i] == r.error.id && Repeated(Index(opt.poolMembers), i)
    ensures r.Ok? ==> forall t :: 0 <= t < |opt.allOhe| ==> opt.allOhe[t].width > 0
    ensures r.Ok? ==> |r.value.vars| == |opt.poolMembers.rows| + |Slots(opt.allOhe, panelSize)|
  {
    var f := opt.poolMembers;
    var n := |f.rows|;
    var repeated := FirstRepeatedFrom(Index(f), 0);
    var ranges := CatalogConstraints(f, catalog);
    if repeated.Some? then Err(AmbiguousParticipation(Index(f)[repeated.value]))
    else if ranges.Err? then Err(ranges.error)
    else if exists t :: 0 <= t < |opt.allOhe| && opt.allOhe[t].width == 0 then Err(EmptyIntersectionTable)
    else
      var slots := Slots(opt.allOhe, panelSize);
      Ok(Model(
        Repeat(Binary, n) + Repeat(Continuous, |slots|),
        ForcingConstraints(opt.participatingCol) + ranges.value + [PanelSizeConstraint(n, panelSize)]
          + AllDeviationConstraints(slots, n),
        LinExpr(UnitTerms(|slots|, n), 0.0)))
  }

  // ---------------------------------------------------------------------
  // Facts the construction loops rely on
  // ---------------------------------------------------------------------

  lemma {:induction false} CatalogErrorPersists(f: DataFrame, catalog: seq<DimensionEntry>, j: nat)
    requires j <= |catalog| && CatalogConstraints(f, catalog[..j]).Err?
    ensures CatalogConstraints(f, catalog) == CatalogConstraints(f, catalog[..j])
    decreases |catalog|
  {
    if j < |catalog| {
      var p := catalog[..|catalog| - 1];
      assert p[..j] == catalog[..j];
      CatalogErrorPersists(f, p, j);
    } else {
      assert catalog[..j] == catalog;
    }
  }

  lemma {:induction false} DeviationConstraintsAppend(s: seq<DevSlot>, u: seq<DevSlot>, base: nat)
    ensures AllDeviationConstraints(s + u, base) ==
      AllDeviationConstraints(s, base) + AllDeviationConstraints(u, base + |s|)
    decreases |u|
  {
    if u == [] {
      assert s + u == s;
    } else {
      var u' := u[..|u| - 1];
      assert (s + u)[..|s + u| - 1] == s + u';
      assert (s + u)[|s + u| - 1] == u[|u| - 1];
      DeviationConstraintsAppend(s, u', base);
    }
  }

  /** One more catalog entry: either its missing column fails, or its range constraints follow. */
  lemma CatalogConstraintsStep(f: DataFrame, catalog: seq<DimensionEntry>, d: nat)
    requires d < |catalog| && CatalogConstraints(f, catalog[..d]).Ok?
    ensures catalog[d].ranges != [] && catalog[d].name !in f.columns ==>
      CatalogConstraints(f, catalog[..d + 1]) == Err(MissingDimensionColumn(catalog[d].name))
    ensures !(catalog[d].ranges != [] && catalog[d].name !in f.columns) ==>
      CatalogConstraints(f, catalog[..d + 1])
        == Ok(CatalogConstraints(f, catalog[..d]).value + RangeConstraints(f, catalog[d].name, catalog[d].ranges))
  {
    assert catalog[..d + 1][..d] == catalog[..d];
  }

  lemma SlotsStep(ohes: seq<Matrix>, t: nat, panelSize: int)
    requires t < |ohes|
    ensures Slots(ohes[..t + 1], panelSize) == Slots(ohes[..t], panelSize) + TableSlots(ohes[t], panelSize)
    ensures |Slots(ohes[..t + 1], panelSize)| == |Slots(ohes[..t], panelSize)| + ohes[t].width
  {
    assert ohes[..t + 1][..t] == ohes[..t];
  }

  /** One more column of a table: its two deviation constraints come last. */
  lemma TableSlotsStep(ohe: Matrix, panelSize: int, j: nat, base: nat, constrs0: seq<Constraint>,
                       before: seq<Constraint>, after: seq<Constraint>)
    requires j < ohe.width
    requires before == constrs0 + AllDeviationConstraints(TableSlots(ohe, panelSize)[..j], base)
    requires after == before
      + [Constraint(LinExpr([Term(base + j, 1.0)] + SizeTerms(ColumnOf(ohe, j), -1.0), Ideal(panelSize, ohe.width)), AtLeast)]
      + [Constraint(LinExpr([Term(base + j, 1.0)] + SizeTerms(ColumnOf(ohe, j), 1.0), -Ideal(panelSize, ohe.width)), AtLeast)]
    ensures after == constrs0 + AllDeviationConstraints(TableSlots(ohe, panelSize)[..j + 1], base)
  {
    var table := TableSlots(ohe, panelSize);
    assert table[..j + 1][..j] == table[..j];
    var added := DeviationConstraints(DevSlot(ColumnOf(ohe, j), Ideal(panelSize, ohe.width)), base + j);
    assert after == before + added;
    AppendAssoc(constrs0, AllDeviationConstraints(table[..j], base), added);
  }

  /** One more table in the table loop: the loop's account of the model moves from `t` tables to `t + 1`. */
  lemma TablesStep(ohes: seq<Matrix>, t: nat, panelSize: int, n: nat,
                   vars0: seq<VarType>, vars1: seq<VarType>, vars2: seq<VarType>,
                   constrs0: seq<Constraint>, constrs1: seq<Constraint>, constrs2: seq<Constraint>,
                   obj: seq<Term>, terms: seq<Term>)
    requires t < |ohes|
    requires |vars0| == n
    requires vars1 == vars0 + Repeat(Continuous, |Slots(ohes[..t], panelSize)|)
    requires constrs1 == constrs0 + AllDeviationConstraints(Slots(ohes[..t], panelSize), n)
    requires obj == UnitTerms(|Slots(ohes[..t], panelSize)|, n)
    requires vars2 == vars1 + Repeat(Continuous, ohes[t].width)
    requires constrs2 == constrs1 + AllDeviationConstraints(TableSlots(ohes[t], panelSize), |vars1|)
    requires terms == UnitTerms(ohes[t].width, |vars1|)
    ensures vars2 == vars0 + Repeat(Continuous, |Slots(ohes[..t + 1], panelSize)|)
    ensures constrs2 == constrs0 + AllDeviationConstraints(Slots(ohes[..t + 1], panelSize), n)
    ensures obj + terms == UnitTerms(|Slots(ohes[..t + 1], panelSize)|, n)
  {
    var done := Slots(ohes[..t], panelSize);
    var table := TableSlots(ohes[t], panelSize);
    SlotsStep(ohes, t, panelSize);
    VarsStep(vars0, vars1, vars2, |done|, |table|);
    ConstrsStep(constrs0, constrs1, constrs2, done, table, n, |vars1|);
    TermsStep(obj, terms, |done|, |table|, n, |vars1|);
  }

  lemma RepeatAppend(v: VarType, a: nat, b: nat)
    ensures Repeat(v, a) + Repeat(v, b) == Repeat(v, a + b)
  {
  }

  lemma TermsStep(obj1: seq<Term>, terms: seq<Term>, a: nat, b: nat, base: nat, base1: nat)
    requires base1 == base + a
    requires obj1 == UnitTerms(a, base)
    requires terms == UnitTerms(b, base1)
    ensures obj1 + terms == UnitTerms(a + b, base)
  {
    UnitTermsAppend(a, b, base, base1);
  }

  lemma VarsStep(vars0: seq<VarType>, vars1: seq<VarType>, vars2: seq<VarType>, a: nat, b: nat)
    requires vars1 == vars0 + Repeat(Continuous, a)
    requires vars2 == vars1 + Repeat(Continuous, b)
    ensures vars2 == vars0 + Repeat(Continuous, a + b)
  {
    RepeatAppend(Continuous, a, b);
    AppendAssoc(vars0, Repeat(Continuous, a), Repeat(Continuous, b));
  }

  lemma ConstrsStep(constrs0: seq<Constraint>, constrs1: seq<Constraint>, constrs2: seq<Constraint>,
                    done: seq<DevSlot>, table: seq<DevSlot>, base: nat, base1: nat)
    requires base1 == base + |done|
    requires constrs1 == constrs0 + AllDeviationConstraints(done, base)
    requires constrs2 == constrs1 + AllDeviationConstraints(table, base1)
    ensures constrs2 == constrs0 + AllDeviationConstraints(done + table, base)
  {
    DeviationConstraintsAppend(done, table, base);
    AppendAssoc(constrs0, AllDeviationConstraints(done, base), AllDeviationConstraints(table, base + |done|));
  }

  lemma AppendAssoc<T>(a: seq<T>, b: seq<T>, c: seq<T>)
    ensures (a + b) + c == a + (b + c)
  {
  }

  lemma UnitTermsAppend(a: nat, b: nat, base: nat, base1: nat)
    requires base1 == base + a
    ensures UnitTerms(a, base) + UnitTerms(b, base1) == UnitTerms(a + b, base)
  {
  }

  // ---------------------------------------------------------------------
  // The construction itself
  // ---------------------------------------------------------------------

  /** The person loop of `optimize`: a binary variable per person and its forced bound. */
  method AddPersons(m: MipModel, opt: DiversityOptimizer) returns (err: Option<OptimizerError>)
    requires WellFormed(opt)
    requires m.vars == [] && m.constrs == [] && m.objective == LinExpr([], 0.0)
    modifies m
    ensures var first := FirstRepeatedFrom(Index(opt.poolMembers), 0);
      && (err.Some? <==> first.Some?)
      && (err.Some? ==> err.value == AmbiguousParticipation(Index(opt.poolMembers)[first.value]))
    ensures err.None? ==>
      && m.vars == Repeat(Binary, |opt.poolMembers.rows|)
      && m.constrs == ForcingConstraints(opt.participatingCol)
      && m.objective == LinExpr([], 0.0)
  {
    var ids := Index(opt.poolMembers);
    var n := |opt.poolMembers.rows|;
    var i := 0;
    while i < n
      invariant 0 <= i <= n
      invariant FirstRepeatedFrom(ids, 0) == FirstRepeatedFrom(ids, i)
      invariant m.vars == Repeat(Binary, i)
      invariant m.constrs == ForcingConstraints(opt.participatingCol[..i])
      invariant m.objective == LinExpr([], 0.0)
    {
      if Repeated(ids, i) {
        return Some(AmbiguousParticipation(ids[i]));
      }
      var v := m.AddVar(Binary);
      if opt.participatingCol[i] == Some("yes") {
        m.AddConstr(Constraint(LinExpr([Term(v, 1.0)], -1.0), AtLeast));
      } else if opt.participatingCol[i] == Some("no") {
        m.AddConstr(Constraint(LinExpr([Term(v, 1.0)], 0.0), AtMost));
      }
      assert opt.participatingCol[..i + 1][..i] == opt.participatingCol[..i];
      i := i + 1;
    }
    assert opt.participatingCol[..n] == opt.participatingCol;
    err := None;
  }

  /** The range loop of one dimension whose column exists (or which has no range). */
  method AddRanges(m: MipModel, f: DataFrame, dim: string, ranges: seq<CategoryRanges>)
    modifies m
    ensures m.constrs == old(m.constrs) + RangeConstraints(f, dim, ranges)
    ensures m.vars == old(m.vars) && m.objective == old(m.objective)
  {
    var k := 0;
    while k < |ranges|
      invariant 0 <= k <= |ranges|
      invariant m.constrs == old(m.constrs) + RangeConstraints(f, dim, ranges[..k])
      invariant m.vars == old(m.vars) && m.objective == old(m.objective)
    {
      var relevantMembers := MemberTerms(f, dim, ranges[k].name, |f.rows|);
      m.AddConstr(Constraint(LinExpr(relevantMembers, -(ranges[k].min as real)), AtLeast));
      m.AddConstr(Constraint(LinExpr(relevantMembers, -(ranges[k].max as real)), AtMost));
      assert ranges[..k + 1][..k] == ranges[..k];
      k := k + 1;
    }
    assert ranges[..k] == ranges;
  }

  /** The dimension loop of `optimize`: the range constraints of the whole catalog. */
  method AddCatalog(m: MipModel, f: DataFrame, catalog: seq<DimensionEntry>) returns (err: Option<OptimizerError>)
    modifies m
    ensures var c := CatalogConstraints(f, catalog);
      && (err.Some? <==> c.Err?)
      && (err.Some? ==> err.value == c.error)
      && (err.None? ==> m.constrs == old(m.constrs) + c.value)
    ensures m.vars == old(m.vars) && m.objective == old(m.objective)
  {
    var d := 0;
    while d < |catalog|
      invariant 0 <= d <= |catalog|
      invariant CatalogConstraints(f, catalog[..d]).Ok?
      invariant m.constrs == old(m.constrs) + CatalogConstraints(f, catalog[..d]).value
      invariant m.vars == old(m.vars) && m.objective == old(m.objective)
    {
      var dimName := catalog[d].name;
      var ranges := catalog[d].ranges;
      CatalogConstraintsStep(f, catalog, d);
      if ranges != [] && dimName !in f.columns {
        CatalogErrorPersists(f, catalog, d + 1);
        return Some(MissingDimensionColumn(dimName));
      }
      ghost var prev := CatalogConstraints(f, catalog[..d]).value;
      AddRanges(m, f, dimName, ranges);
      assert m.constrs == old(m.constrs) + (prev + RangeConstraints(f, dimName, ranges));
      d := d + 1;
    }
    assert catalog[..d] == catalog;
    err := None;
  }

  /** The loop over one retained table: a deviation variable and two constraints per label. */
  method AddTable(m: MipModel, ohe: Matrix, panelSize: int) returns (terms: seq<Term>)
    requires ohe.width > 0
    modifies m
    ensures m.vars == old(m.vars) + Repeat(Continuous, ohe.width)
    ensures m.constrs == old(m.constrs) + AllDeviationConstraints(TableSlots(ohe, panelSize), |old(m.vars)|)
    ensures m.objective == old(m.objective)
    ensures terms == UnitTerms(ohe.width, |old(m.vars)|)
  {
    var bestVal := Ideal(panelSize, ohe.width);
    ghost var table := TableSlots(ohe, panelSize);
    ghost var constrs0 := m.constrs;
    var base := |m.vars|;
    var diffs: seq<nat> := [];
    var j := 0;
    while j < ohe.width
      invariant 0 <= j <= ohe.width
      invariant m.vars == old(m.vars) + Repeat(Continuous, j)
      invariant |diffs| == j && forall k :: 0 <= k < j ==> diffs[k] == base + k
      invariant m.constrs == constrs0 && m.objective == old(m.objective)
    {
      var v := m.AddVar(Continuous);
      diffs := diffs + [v];
      j := j + 1;
    }
    j := 0;
    while j < ohe.width
      invariant 0 <= j <= ohe.width
      invariant m.vars == old(m.vars) + Repeat(Continuous, ohe.width)
      invariant m.constrs == constrs0 + AllDeviationConstraints(table[..j], base)
      invariant m.objective == old(m.objective)
    {
      var size := ColumnOf(ohe, j);
      ghost var before := m.constrs;
      m.AddConstr(Constraint(LinExpr([Term(diffs[j], 1.0)] + SizeTerms(size, -1.0), bestVal), AtLeast));
      m.AddConstr(Constraint(LinExpr([Term(diffs[j], 1.0)] + SizeTerms(size, 1.0), -bestVal), AtLeast));
      TableSlotsStep(ohe, panelSize, j, base, constrs0, before, m.constrs);
      j := j + 1;
    }
    assert table[..j] == table;
    terms := seq(ohe.width, k requires 0 <= k < ohe.width => Term(diffs[k], 1.0));
  }

  /** The table loop of `optimize`: deviation variables and constraints for every retained table. */
  method AddTables(m: MipModel, ohes: seq<Matrix>, panelSize: int) returns (ok: bool, objTerms: seq<Term>)
    modifies m
    ensures ok <==> forall t :: 0 <= t < |ohes| ==> ohes[t].width > 0
    ensures ok ==>
      var slots := Slots(ohes, panelSize);
      && m.vars == old(m.vars) + Repeat(Continuous, |slots|)
      && m.constrs == old(m.constrs) + AllDeviationConstraints(slots, |old(m.vars)|)
      && objTerms == UnitTerms(|slots|, |old(m.vars)|)
    ensures m.objective == old(m.objective)
  {
    var n := |m.vars|;
    ghost var vars0, constrs0 := m.vars, m.constrs;
    var t := 0;
    objTerms := [];
    while t < |ohes|
      invariant 0 <= t <= |ohes|
      invariant forall u :: 0 <= u < t ==> ohes[u].width > 0
      invariant m.vars == vars0 + Repeat(Continuous, |Slots(ohes[..t], panelSize)|)
      invariant m.constrs == constrs0 + AllDeviationConstraints(Slots(ohes[..t], panelSize), n)
      invariant objTerms == UnitTerms(|Slots(ohes[..t], panelSize)|, n)
      invariant m.objective == old(m.objective)
    {
      var ohe := ohes[t];
      if ohe.width == 0 {
        return false, objTerms;
      }
      ghost var vars1, constrs1 := m.vars, m.constrs;
      var terms := AddTable(m, ohe, panelSize);
      TablesStep(ohes, t, panelSize, n, vars0, vars1, m.vars, constrs0, constrs1, m.constrs, objTerms, terms);
      objTerms := objTerms + terms;
      t := t + 1;
    }
    assert ohes[..t] == ohes;
    ok := true;
  }

  /**
   * `optimize` up to the solver call, for the catalog as its reader sees it:
   * builds the model step by step in a new `MipModel`. The result is the
   * model `BuildModel` describes, or the same error.
   */
  method Assemble(opt: DiversityOptimizer, catalog: seq<DimensionEntry>, panelSize: int)
    returns (r: Result<MipModel, OptimizerError>)
    requires WellFormed(opt)
    ensures r.Ok? <==> BuildModel(opt, catalog, panelSize).Ok?
    ensures r.Ok? ==> fresh(r.value) && r.value.Snapshot() == BuildModel(opt, catalog, panelSize).value
    ensures r.Err? ==> BuildModel(opt, catalog, panelSize) == Err(r.error)
  {
    var df := opt.poolMembers;
    var n := |df.rows|;
    var m := new MipModel();
    var err := AddPersons(m, opt);
    if err.Some? {
      return Err(err.value);
    }
    err := AddCatalog(m, df, catalog);
    if err.Some? {
      return Err(err.value);
    }
    m.AddConstr(PanelSizeConstraint(n, panelSize));
    var ok, objTerms := AddTables(m, opt.allOhe, panelSize);
    if !ok {
      return Err(EmptyIntersectionTable);
    }
    m.SetObjective(LinExpr(objTerms, 0.0));
    r := Ok(m);
  }

  /** `DiversityOptimizer.optimize` with a dimension catalog, up to the solver call. */
  method Optimize(opt: DiversityOptimizer, dimensions: Dimensions, panelSize: int)
    returns (r: Result<MipModel, OptimizerError>)
    requires WellFormed(opt) && dimensions.Valid()
    ensures r.Ok? <==> BuildModel(opt, dimensions.View(), panelSize).Ok?
    ensures r.Ok? ==> fresh(r.value) && r.value.Snapshot() == BuildModel(opt, dimensions.View(), panelSize).value
    ensures r.Err? ==> BuildModel(opt, dimensions.View(), panelSize) == Err(r.error)
  {
    r := Assemble(opt, dimensions.View(), panelSize);
  }
}
