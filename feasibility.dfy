/**
 * What the model `optimize` hands to the solver means. An assignment
 * satisfies it exactly when its first values pick a panel of the requested
 * size that keeps every forced participation and every category range, and
 * every deviation variable is at least the distance between its
 * intersection's size and the table's ideal size. For a fixed panel the least
 * objective is the sum of those distances. The persons come first, so the
 * first values decode to the selected panel.
 */
module Feasibility {

  import opened Wrappers
  import opened Frame
  import opened Catalog
  import opened Intersections
  import opened Encoding
  import opened LinearModel
  import opened Formulation

  function Abs(x: real): (r: real)
    ensures r >= 0.0 && (r == x || r == -x)
  {
    if x < 0.0 then -x else x
  }

  /** The sum of col[i] * a[i] over the rows of the column (rows `a` does not assign count 0). */
  function Weighted(col: seq<int>, a: seq<real>): real {
    if col == [] then 0.0
    else
      var i := |col| - 1;
      Weighted(col[..i], a) + if i < |a| then (col[i] as real) * a[i] else 0.0
  }

  /** 1 for every row whose cell in column `dim` is `name`, 0 for the others. */
  function Membership(f: DataFrame, dim: string, name: string): (r: seq<int>)
    ensures |r| == |f.rows|
  {
    seq(|f.rows|, i requires 0 <= i < |f.rows| => if Cell(f, i, dim) == Some(name) then 1 else 0)
  }

  /** a[base] + ... + a[base + count - 1]. */
  function SumRange(a: seq<real>, base: nat, count: nat): real
    requires base + count <= |a|
  {
    if count == 0 then 0.0 else SumRange(a, base, count - 1) + a[base + count - 1]
  }

  predicate InRange(rg: CategoryRanges, x: real) {
    rg.min as real <= x <= rg.max as real
  }

  /** The bound a participation value imposes on a person's value. */
  predicate Forced(p: Option<string>, x: real) {
    (p == Some("yes") ==> x >= 1.0) && (p == Some("no") ==> x <= 0.0)
  }

  /** Every declared category holds between its min and max selected members. */
  predicate CatalogRespected(f: DataFrame, catalog: seq<DimensionEntry>, a: seq<real>) {
    forall e, j :: 0 <= e < |catalog| && 0 <= j < |catalog[e].ranges| ==>
      InRange(catalog[e].ranges[j], Weighted(Membership(f, catalog[e].name, catalog[e].ranges[j].name), a))
  }

  /** The sum over the slots of |size - ideal|, sizes taken under `a`. */
  function TotalDeviation(slots: seq<DevSlot>, a: seq<real>): real {
    if slots == [] then 0.0
    else
      var k := |slots| - 1;
      TotalDeviation(slots[..k], a) + Abs(Weighted(slots[k].column, a) - slots[k].ideal)
  }

  /**
   * The declarative reading of the model: a 0/1 value per person, forced
   * values kept, category ranges kept, exactly `panelSize` persons, and every
   * deviation value at least |size - ideal|.
   */
  predicate Feasible(opt: DiversityOptimizer, catalog: seq<DimensionEntry>, panelSize: int, a: seq<real>)
    requires WellFormed(opt)
  {
    var f := opt.poolMembers;
    var n := |f.rows|;
    var slots := Slots(opt.allOhe, panelSize);
    && |a| == n + |slots|
    && (forall i :: 0 <= i < n ==> a[i] == 0.0 || a[i] == 1.0)
    && (forall i :: 0 <= i < n && opt.participatingCol[i] == Some("yes") ==> a[i] == 1.0)
    && (forall i :: 0 <= i < n && opt.participatingCol[i] == Some("no") ==> a[i] == 0.0)
    && CatalogRespected(f, catalog, a)
    && SumRange(a, 0, n) == panelSize as real
    && DeviationsCover(slots, n, a)
  }

  // ---------------------------------------------------------------------
  // Values of the expressions the model is made of
  // ---------------------------------------------------------------------

  lemma TermsValueSingle(t: Term, a: seq<real>)
    ensures TermsValue([t], a) == if t.v < |a| then t.coef * a[t.v] else 0.0
  {
    assert [t][..0] == [];
  }

  lemma {:induction false} SizeTermsValue(col: seq<int>, sign: real, a: seq<real>)
    ensures TermsValue(SizeTerms(col, sign), a) == sign * Weighted(col, a)
    decreases |col|
  {
    var ts := SizeTerms(col, sign);
    if col != [] {
      var k := |col| - 1;
      forall i | 0 <= i < k ensures ts[..k][i] == SizeTerms(col[..k], sign)[i] {
        assert col[..k][i] == col[i];
      }
      assert ts[..k] == SizeTerms(col[..k], sign);
      SizeTermsValue(col[..k], sign, a);
      var last := if k < |a| then (col[k] as real) * a[k] else 0.0;
      assert TermsValue(ts, a) == sign * Weighted(col[..k], a) + sign * last;
      assert sign * (Weighted(col[..k], a) + last) == sign * Weighted(col[..k], a) + sign * last;
    }
  }

  lemma {:induction false} MemberTermsValue(f: DataFrame, dim: string, name: string, k: nat, a: seq<real>)
    requires k <= |f.rows|
    ensures TermsValue(MemberTerms(f, dim, name, k), a) == Weighted(Membership(f, dim, name)[..k], a)
  {
    var col := Membership(f, dim, name);
    if k == 0 {
      assert col[..k] == [];
    } else {
      MemberTermsValue(f, dim, name, k - 1, a);
      var prev := MemberTerms(f, dim, name, k - 1);
      var extra := if Cell(f, k - 1, dim) == Some(name) then [Term(k - 1, 1.0)] else [];
      assert MemberTerms(f, dim, name, k) == prev + extra;
      TermsValueAppend(prev, extra, a);
      var last := if k - 1 < |a| then (col[k - 1] as real) * a[k - 1] else 0.0;
      assert col[..k][..k - 1] == col[..k - 1];
      assert Weighted(col[..k], a) == Weighted(col[..k - 1], a) + last;
      if extra != [] {
        assert col[k - 1] == 1;
        TermsValueSingle(Term(k - 1, 1.0), a);
        assert TermsValue(extra, a) == if k - 1 < |a| then a[k - 1] else 0.0;
      } else {
        assert col[k - 1] == 0;
        assert last == 0.0;
      }
    }
  }

  lemma {:induction false} UnitTermsValue(count: nat, base: nat, a: seq<real>)
    requires base + count <= |a|
    ensures TermsValue(UnitTerms(count, base), a) == SumRange(a, base, count)
  {
    if count > 0 {
      assert UnitTerms(count, base)[..count - 1] == UnitTerms(count - 1, base);
      UnitTermsValue(count - 1, base, a);
    }
  }

  // ---------------------------------------------------------------------
  // Each group of constraints, read declaratively
  // ---------------------------------------------------------------------

  lemma {:induction false} ForcingHolds(participation: seq<Option<string>>, a: seq<real>)
    requires |participation| <= |a|
    ensures AllHold(ForcingConstraints(participation), a) <==>
      forall i :: 0 <= i < |participation| ==> Forced(participation[i], a[i])
  {
    if participation != [] {
      var k := |participation| - 1;
      var prefix := participation[..k];
      ForcingHolds(prefix, a);
      AllHoldAppend(ForcingConstraints(prefix), ForcingOf(k, participation[k]), a);
      TermsValueSingle(Term(k, 1.0), a);
      assert AllHold(ForcingOf(k, participation[k]), a) <==> Forced(participation[k], a[k]) by {
        if participation[k] == Some("yes") || participation[k] == Some("no") {
          assert ForcingOf(k, participation[k])[0] in ForcingOf(k, participation[k]);
        }
      }
      assert forall i :: 0 <= i < k ==> prefix[i] == participation[i];
    }
  }

  lemma {:induction false} RangeHolds(f: DataFrame, dim: string, ranges: seq<CategoryRanges>, a: seq<real>)
    ensures AllHold(RangeConstraints(f, dim, ranges), a) <==>
      forall j :: 0 <= j < |ranges| ==> InRange(ranges[j], Weighted(Membership(f, dim, ranges[j].name), a))
  {
    if ranges != [] {
      var k := |ranges| - 1;
      var rg := ranges[k];
      var members := MemberTerms(f, dim, rg.name, |f.rows|);
      var pair := [Constraint(LinExpr(members, -(rg.min as real)), AtLeast),
                   Constraint(LinExpr(members, -(rg.max as real)), AtMost)];
      RangeHolds(f, dim, ranges[..k], a);
      AllHoldAppend(RangeConstraints(f, dim, ranges[..k]), pair, a);
      MemberTermsValue(f, dim, rg.name, |f.rows|, a);
      assert Membership(f, dim, rg.name)[..|f.rows|] == Membership(f, dim, rg.name);
      assert AllHold(pair, a) <==> InRange(rg, Weighted(Membership(f, dim, rg.name), a)) by {
        assert Holds(pair[0], a) && Holds(pair[1], a) ==> AllHold(pair, a);
      }
      assert forall j :: 0 <= j < k ==> ranges[..k][j] == ranges[j];
    }
  }

  lemma {:induction false} CatalogHolds(f: DataFrame, catalog: seq<DimensionEntry>, a: seq<real>)
    requires CatalogConstraints(f, catalog).Ok?
    ensures AllHold(CatalogConstraints(f, catalog).value, a) <==> CatalogRespected(f, catalog, a)
  {
    if catalog != [] {
      var k := |catalog| - 1;
      var prefix := catalog[..k];
      var e := catalog[k];
      CatalogHolds(f, prefix, a);
      AllHoldAppend(CatalogConstraints(f, prefix).value, RangeConstraints(f, e.name, e.ranges), a);
      RangeHolds(f, e.name, e.ranges, a);
      assert forall d :: 0 <= d < k ==> prefix[d] == catalog[d];
      if CatalogRespected(f, prefix, a) && AllHold(RangeConstraints(f, e.name, e.ranges), a) {
        forall d, j | 0 <= d < |catalog| && 0 <= j < |catalog[d].ranges|
          ensures InRange(catalog[d].ranges[j], Weighted(Membership(f, catalog[d].name, catalog[d].ranges[j].name), a))
        {
          if d < k {
            assert prefix[d] == catalog[d];
          }
        }
      }
    }
  }

  /** The catalog yields constraints exactly when every dimension with a range has a column; otherwise the first that has none is named. */
  lemma {:induction false} CatalogConstraintsOutcome(f: DataFrame, catalog: seq<DimensionEntry>)
    ensures CatalogConstraints(f, catalog).Ok? <==>
      forall e :: 0 <= e < |catalog| && catalog[e].ranges != [] ==> catalog[e].name in f.columns
    ensures CatalogConstraints(f, catalog).Err? ==>
      exists e :: 0 <= e < |catalog| && FirstMissingColumn(f, catalog, e)
        && CatalogConstraints(f, catalog).error == MissingDimensionColumn(catalog[e].name)
  {
    if catalog != [] {
      var k := |catalog| - 1;
      var prefix := catalog[..k];
      CatalogConstraintsOutcome(f, prefix);
      assert forall d :: 0 <= d < k ==> prefix[d] == catalog[d];
      if CatalogConstraints(f, prefix).Err? {
        var e :| 0 <= e < |prefix| && FirstMissingColumn(f, prefix, e)
          && CatalogConstraints(f, prefix).error == MissingDimensionColumn(prefix[e].name);
        assert FirstMissingColumn(f, catalog, e);
      } else if catalog[k].ranges != [] && catalog[k].name !in f.columns {
        assert FirstMissingColumn(f, catalog, k);
      }
    }
  }

  /** Dimension `e` has a range but no column, and every earlier one with a range has its column. */
  predicate FirstMissingColumn(f: DataFrame, catalog: seq<DimensionEntry>, e: nat)
    requires e < |catalog|
  {
    && catalog[e].ranges != [] && catalog[e].name !in f.columns
    && forall d :: 0 <= d < e && catalog[d].ranges != [] ==> catalog[d].name in f.columns
  }

  lemma DeviationValue(v: nat, col: seq<int>, sign: real, a: seq<real>)
    requires v < |a|
    ensures TermsValue([Term(v, 1.0)] + SizeTerms(col, sign), a) == a[v] + sign * Weighted(col, a)
  {
    TermsValueSingle(Term(v, 1.0), a);
    TermsValueAppend([Term(v, 1.0)], SizeTerms(col, sign), a);
    SizeTermsValue(col, sign, a);
  }

  lemma DeviationPairHolds(s: DevSlot, v: nat, a: seq<real>)
    requires v < |a|
    ensures AllHold(DeviationConstraints(s, v), a) <==> a[v] >= Abs(Weighted(s.column, a) - s.ideal)
  {
    var pair := DeviationConstraints(s, v);
    var w := Weighted(s.column, a);
    DeviationBoundsHold(s, v, a);
    assert AllHold(pair, a) <==> Holds(pair[0], a) && Holds(pair[1], a);
    AbsBound(a[v], w - s.ideal);
  }

  lemma DeviationBoundsHold(s: DevSlot, v: nat, a: seq<real>)
    requires v < |a|
    ensures Holds(DeviationConstraints(s, v)[0], a) <==> a[v] >= Weighted(s.column, a) - s.ideal
    ensures Holds(DeviationConstraints(s, v)[1], a) <==> a[v] >= -(Weighted(s.column, a) - s.ideal)
  {
    DeviationValue(v, s.column, -1.0, a);
    DeviationValue(v, s.column, 1.0, a);
  }

  lemma AbsBound(x: real, d: real)
    ensures x >= Abs(d) <==> x >= d && x >= -d
  {
  }

  lemma {:induction false} DeviationHolds(slots: seq<DevSlot>, base: nat, a: seq<real>)
    requires base + |slots| <= |a|
    ensures AllHold(AllDeviationConstraints(slots, base), a) <==> DeviationsCover(slots, base, a)
  {
    if slots != [] {
      var k := |slots| - 1;
      var prefix := slots[..k];
      DeviationHolds(prefix, base, a);
      AllHoldAppend(AllDeviationConstraints(prefix, base), DeviationConstraints(slots[k], base + k), a);
      DeviationPairHolds(slots[k], base + k, a);
    }
  }

  /** Deviation `k` (variable `base + k`) is at least |size - ideal| of slot `k`, for every slot. */
  predicate DeviationsCover(slots: seq<DevSlot>, base: nat, a: seq<real>)
    requires base + |slots| <= |a|
  {
    if slots == [] then true
    else
      var k := |slots| - 1;
      DeviationsCover(slots[..k], base, a) && a[base + k] >= Abs(Weighted(slots[k].column, a) - slots[k].ideal)
  }

  lemma {:induction false} DeviationsCoverAt(slots: seq<DevSlot>, base: nat, a: seq<real>, k: nat)
    requires base + |slots| <= |a| && DeviationsCover(slots, base, a) && k < |slots|
    ensures a[base + k] >= Abs(Weighted(slots[k].column, a) - slots[k].ideal)
  {
    var last := |slots| - 1;
    if k < last {
      DeviationsCoverAt(slots[..last], base, a, k);
      assert slots[..last][k] == slots[k];
    }
  }

  /** Covered deviation variables are never negative. */
  lemma DeviationsNonNegative(slots: seq<DevSlot>, base: nat, a: seq<real>)
    requires base + |slots| <= |a| && DeviationsCover(slots, base, a)
    ensures forall v :: base <= v < base + |slots| ==> a[v] >= 0.0
  {
    forall v | base <= v < base + |slots| ensures a[v] >= 0.0 {
      DeviationsCoverAt(slots, base, a, v - base);
    }
  }

  /** The forcing constraints of every person, against the participation rules of a 0/1 choice. */
  lemma ForcedPersons(part: seq<Option<string>>, a: seq<real>, n: nat)
    requires n <= |part| && n <= |a|
    requires forall i :: 0 <= i < n ==> a[i] == 0.0 || a[i] == 1.0
    ensures (forall i :: 0 <= i < n ==> Forced(part[i], a[i])) <==>
      && (forall i :: 0 <= i < n && part[i] == Some("yes") ==> a[i] == 1.0)
      && (forall i :: 0 <= i < n && part[i] == Some("no") ==> a[i] == 0.0)
  {
  }

  // ---------------------------------------------------------------------
  // The model as a whole
  // ---------------------------------------------------------------------

  /** The constraints of the built model, group by group. */
  lemma BuiltConstraintsHold(opt: DiversityOptimizer, catalog: seq<DimensionEntry>, panelSize: int, a: seq<real>)
    requires WellFormed(opt) && BuildModel(opt, catalog, panelSize).Ok?
    requires |a| == |opt.poolMembers.rows| + |Slots(opt.allOhe, panelSize)|
    ensures var n := |opt.poolMembers.rows|;
      AllHold(BuildModel(opt, catalog, panelSize).value.constrs, a) <==>
        && (forall i :: 0 <= i < n ==> Forced(opt.participatingCol[i], a[i]))
        && CatalogRespected(opt.poolMembers, catalog, a)
        && SumRange(a, 0, n) == panelSize as real
        && DeviationsCover(Slots(opt.allOhe, panelSize), n, a)
  {
    var f := opt.poolMembers;
    var n := |f.rows|;
    var slots := Slots(opt.allOhe, panelSize);
    var forcing := ForcingConstraints(opt.participatingCol);
    var ranges := CatalogConstraints(f, catalog).value;
    var panel := [PanelSizeConstraint(n, panelSize)];
    var devs := AllDeviationConstraints(slots, n);
    assert BuildModel(opt, catalog, panelSize).value.constrs == forcing + ranges + panel + devs;
    AllHoldAppend(forcing + ranges + panel, devs, a);
    AllHoldAppend(forcing + ranges, panel, a);
    AllHoldAppend(forcing, ranges, a);
    ForcingHolds(opt.participatingCol, a);
    CatalogHolds(f, catalog, a);
    DeviationHolds(slots, n, a);
    UnitTermsValue(n, 0, a);
    assert AllHold(panel, a) <==> Holds(panel[0], a);
  }

  /** The domains of the built model's variables. */
  lemma BuiltDomain(opt: DiversityOptimizer, catalog: seq<DimensionEntry>, panelSize: int, a: seq<real>)
    requires WellFormed(opt) && BuildModel(opt, catalog, panelSize).Ok?
    ensures var n := |opt.poolMembers.rows|;
      InDomain(BuildModel(opt, catalog, panelSize).value.vars, a) <==>
        && |a| == n + |Slots(opt.allOhe, panelSize)|
        && (forall i :: 0 <= i < n ==> a[i] == 0.0 || a[i] == 1.0)
        && (forall v :: n <= v < |a| ==> a[v] >= 0.0)
  {
    var n := |opt.poolMembers.rows|;
    var vars := BuildModel(opt, catalog, panelSize).value.vars;
    assert forall v :: 0 <= v < n ==> vars[v] == Binary;
    assert forall v :: n <= v < |vars| ==> vars[v] == Continuous;
  }

  /** An assignment satisfies the built model exactly when it is feasible in the declarative sense. */
  lemma SatisfiesBuiltModel(opt: DiversityOptimizer, catalog: seq<DimensionEntry>, panelSize: int, a: seq<real>)
    requires WellFormed(opt) && BuildModel(opt, catalog, panelSize).Ok?
    ensures Satisfies(BuildModel(opt, catalog, panelSize).value, a) <==> Feasible(opt, catalog, panelSize, a)
  {
    var n := |opt.poolMembers.rows|;
    var slots := Slots(opt.allOhe, panelSize);
    var part := opt.participatingCol;
    BuiltDomain(opt, catalog, panelSize, a);
    if |a| == n + |slots| {
      BuiltConstraintsHold(opt, catalog, panelSize, a);
      if DeviationsCover(slots, n, a) {
        DeviationsNonNegative(slots, n, a);
      }
      if forall i :: 0 <= i < n ==> a[i] == 0.0 || a[i] == 1.0 {
        ForcedPersons(part, a, n);
      }
    }
  }

  /** The variables: the persons first, as binaries, then one continuous deviation per slot. */
  lemma BuiltModelVariables(opt: DiversityOptimizer, catalog: seq<DimensionEntry>, panelSize: int)
    requires WellFormed(opt) && BuildModel(opt, catalog, panelSize).Ok?
    ensures var vars := BuildModel(opt, catalog, panelSize).value.vars;
      var n := |opt.poolMembers.rows|;
      && |vars| == n + |Slots(opt.allOhe, panelSize)|
      && (forall i :: 0 <= i < n ==> vars[i] == Binary)
      && (forall i :: n <= i < |vars| ==> vars[i] == Continuous)
  {
  }

  /** The objective is the sum of the deviation variables. */
  lemma ObjectiveIsDeviationSum(opt: DiversityOptimizer, catalog: seq<DimensionEntry>, panelSize: int, a: seq<real>)
    requires WellFormed(opt) && BuildModel(opt, catalog, panelSize).Ok?
    requires |a| == |opt.poolMembers.rows| + |Slots(opt.allOhe, panelSize)|
    ensures ObjectiveValue(BuildModel(opt, catalog, panelSize).value, a)
      == SumRange(a, |opt.poolMembers.rows|, |Slots(opt.allOhe, panelSize)|)
  {
    UnitTermsValue(|Slots(opt.allOhe, panelSize)|, |opt.poolMembers.rows|, a);
  }

  lemma {:induction false} CoverBoundsSum(slots: seq<DevSlot>, base: nat, a: seq<real>)
    requires base + |slots| <= |a| && DeviationsCover(slots, base, a)
    ensures SumRange(a, base, |slots|) >= TotalDeviation(slots, a)
  {
    if slots != [] {
      CoverBoundsSum(slots[..|slots| - 1], base, a);
    }
  }

  /** No feasible assignment has an objective below the total deviation of its panel. */
  lemma ObjectiveLowerBound(opt: DiversityOptimizer, catalog: seq<DimensionEntry>, panelSize: int, a: seq<real>)
    requires WellFormed(opt) && BuildModel(opt, catalog, panelSize).Ok?
    requires Satisfies(BuildModel(opt, catalog, panelSize).value, a)
    ensures ObjectiveValue(BuildModel(opt, catalog, panelSize).value, a)
      >= TotalDeviation(Slots(opt.allOhe, panelSize), a)
  {
    SatisfiesBuiltModel(opt, catalog, panelSize, a);
    ObjectiveIsDeviationSum(opt, catalog, panelSize, a);
    CoverBoundsSum(Slots(opt.allOhe, panelSize), |opt.poolMembers.rows|, a);
  }

  /** |size - ideal| of every slot, sizes taken under `a`. */
  function DeviationValues(slots: seq<DevSlot>, a: seq<real>): (r: seq<real>)
    ensures |r| == |slots|
  {
    if slots == [] then []
    else
      var k := |slots| - 1;
      DeviationValues(slots[..k], a) + [Abs(Weighted(slots[k].column, a) - slots[k].ideal)]
  }

  /** The panel of `a` with every deviation variable set to exactly |size - ideal|. */
  function Tight(a: seq<real>, n: nat, slots: seq<DevSlot>): (b: seq<real>)
    requires n <= |a|
    ensures |b| == n + |slots|
  {
    a[..n] + DeviationValues(slots, a)
  }

  lemma {:induction false} WeightedAgree(col: seq<int>, a: seq<real>, b: seq<real>)
    requires |col| <= |a| && |col| <= |b| && a[..|col|] == b[..|col|]
    ensures Weighted(col, a) == Weighted(col, b)
  {
    if col != [] {
      var k := |col| - 1;
      assert a[..k] == a[..|col|][..k] && b[..k] == b[..|col|][..k];
      assert a[k] == a[..|col|][k] && b[k] == b[..|col|][k];
      WeightedAgree(col[..k], a, b);
    }
  }

  lemma {:induction false} SumRangeAgree(a: seq<real>, b: seq<real>, c: nat)
    requires c <= |a| && c <= |b| && a[..c] == b[..c]
    ensures SumRange(a, 0, c) == SumRange(b, 0, c)
  {
    if c > 0 {
      assert a[..c - 1] == a[..c][..c - 1] && b[..c - 1] == b[..c][..c - 1];
      assert a[c - 1] == a[..c][c - 1] && b[c - 1] == b[..c][c - 1];
      SumRangeAgree(a, b, c - 1);
    }
  }

  /** Deviation values set exactly: they cover their slots and sum to the total deviation. */
  lemma {:induction false} ExactDeviations(slots: seq<DevSlot>, n: nat, a: seq<real>, b: seq<real>)
    requires n <= |a| && n + |slots| <= |b| && b[..n] == a[..n]
    requires forall k :: 0 <= k < |slots| ==> |slots[k].column| <= n
    requires b[n..n + |slots|] == DeviationValues(slots, a)
    ensures DeviationsCover(slots, n, b)
    ensures SumRange(b, n, |slots|) == TotalDeviation(slots, a)
  {
    if slots != [] {
      var k := |slots| - 1;
      var prefix := slots[..k];
      assert b[n..n + k] == b[n..n + |slots|][..k];
      assert forall d :: 0 <= d < k ==> prefix[d] == slots[d];
      ExactDeviations(prefix, n, a, b);
      var col := slots[k].column;
      assert b[n + k] == b[n..n + |slots|][k];
      assert a[..|col|] == a[..n][..|col|] && b[..|col|] == b[..n][..|col|];
      WeightedAgree(col, a, b);
    }
  }

  lemma {:induction false} SlotColumns(ohes: seq<Matrix>, panelSize: int, n: nat)
    requires forall t :: 0 <= t < |ohes| ==> IsMatrixOf(ohes[t], n)
    ensures forall k :: 0 <= k < |Slots(ohes, panelSize)| ==> |Slots(ohes, panelSize)[k].column| == n
  {
    if ohes != [] {
      SlotColumns(ohes[..|ohes| - 1], panelSize, n);
    }
  }

  lemma CatalogRespectedAgree(f: DataFrame, catalog: seq<DimensionEntry>, a: seq<real>, b: seq<real>)
    requires |f.rows| <= |a| && |f.rows| <= |b| && a[..|f.rows|] == b[..|f.rows|]
    ensures CatalogRespected(f, catalog, a) <==> CatalogRespected(f, catalog, b)
  {
    forall d, j | 0 <= d < |catalog| && 0 <= j < |catalog[d].ranges|
      ensures Weighted(Membership(f, catalog[d].name, catalog[d].ranges[j].name), a)
        == Weighted(Membership(f, catalog[d].name, catalog[d].ranges[j].name), b)
    {
      WeightedAgree(Membership(f, catalog[d].name, catalog[d].ranges[j].name), a, b);
    }
  }

  /**
   * For the panel of any feasible assignment, setting every deviation to
   * |size - ideal| keeps the assignment feasible and brings the objective
   * down to the total deviation: with the lower bound above, that is the
   * least objective for this panel.
   */
  lemma TightIsOptimalForPanel(opt: DiversityOptimizer, catalog: seq<DimensionEntry>, panelSize: int, a: seq<real>)
    requires WellFormed(opt) && BuildModel(opt, catalog, panelSize).Ok?
    requires Satisfies(BuildModel(opt, catalog, panelSize).value, a)
    ensures var n := |opt.poolMembers.rows|;
      var slots := Slots(opt.allOhe, panelSize);
      var b := Tight(a, n, slots);
      && b[..n] == a[..n]
      && Satisfies(BuildModel(opt, catalog, panelSize).value, b)
      && ObjectiveValue(BuildModel(opt, catalog, panelSize).value, b) == TotalDeviation(slots, a)
  {
    var n := |opt.poolMembers.rows|;
    var slots := Slots(opt.allOhe, panelSize);
    var b := Tight(a, n, slots);
    SatisfiesBuiltModel(opt, catalog, panelSize, a);
    TightFeasible(opt, catalog, panelSize, a);
    SatisfiesBuiltModel(opt, catalog, panelSize, b);
    ObjectiveIsDeviationSum(opt, catalog, panelSize, b);
  }

  /** The tight assignment of a feasible one is feasible, and its deviations add up to the total deviation. */
  lemma TightFeasible(opt: DiversityOptimizer, catalog: seq<DimensionEntry>, panelSize: int, a: seq<real>)
    requires WellFormed(opt) && Feasible(opt, catalog, panelSize, a)
    ensures var n := |opt.poolMembers.rows|;
      var slots := Slots(opt.allOhe, panelSize);
      var b := Tight(a, n, slots);
      && b[..n] == a[..n]
      && Feasible(opt, catalog, panelSize, b)
      && SumRange(b, n, |slots|) == TotalDeviation(slots, a)
  {
    var f := opt.poolMembers;
    var n := |f.rows|;
    var slots := Slots(opt.allOhe, panelSize);
    var b := Tight(a, n, slots);
    assert b[..n] == a[..n];
    assert b[n..n + |slots|] == DeviationValues(slots, a);
    SlotColumns(opt.allOhe, panelSize, n);
    ExactDeviations(slots, n, a, b);
    CatalogRespectedAgree(f, catalog, a, b);
    SumRangeAgree(a, b, n);
    assert forall i :: 0 <= i < n ==> b[i] == a[i];
  }

  // ---------------------------------------------------------------------
  // Decoding the first n values into the selected panel
  // ---------------------------------------------------------------------

  /** The persons whose value is 1: what `optimize` returns as the selection. */
  function Selected(a: seq<real>, n: nat): set<nat>
    requires n <= |a|
  {
    set i: nat | i < n && a[i] == 1.0
  }

  /** The selected persons whose cell in `dim` is `name`. */
  function SelectedIn(f: DataFrame, dim: string, name: string, sel: set<nat>): set<nat> {
    set i | i in sel && i < |f.rows| && Cell(f, i, dim) == Some(name)
  }

  /** For 0/1 values, the weighted sum of a 0/1 column counts the rows selected in it. */
  lemma {:induction false} WeightedCounts(col: seq<int>, a: seq<real>)
    requires |col| <= |a|
    requires forall i :: 0 <= i < |col| ==> col[i] == 0 || col[i] == 1
    requires forall i :: 0 <= i < |col| ==> a[i] == 0.0 || a[i] == 1.0
    ensures Weighted(col, a) == |set i: nat | i < |col| && col[i] == 1 && a[i] == 1.0| as real
  {
    var picked := set i: nat | i < |col| && col[i] == 1 && a[i] == 1.0;
    if col == [] {
      assert picked == {};
    } else {
      var k := |col| - 1;
      var prefix := col[..k];
      WeightedCounts(prefix, a);
      var before := set i: nat | i < |prefix| && prefix[i] == 1 && a[i] == 1.0;
      if col[k] == 1 && a[k] == 1.0 {
        assert picked == before + {k};
      } else {
        assert picked == before;
      }
    }
  }

  lemma {:induction false} OnesCount(a: seq<real>, n: nat)
    requires n <= |a|
    requires forall i :: 0 <= i < n ==> a[i] == 0.0 || a[i] == 1.0
    ensures SumRange(a, 0, n) == |Selected(a, n)| as real
  {
    if n > 0 {
      OnesCount(a, n - 1);
      if a[n - 1] == 1.0 {
        assert Selected(a, n) == Selected(a, n - 1) + {n - 1};
      } else {
        assert Selected(a, n) == Selected(a, n - 1);
      }
    }
  }

  /**
   * The panel a feasible assignment decodes to has exactly `panelSize`
   * persons, contains every person marked "yes", no person marked "no", and
   * between min and max members of every declared category.
   */
  lemma DecodedPanel(opt: DiversityOptimizer, catalog: seq<DimensionEntry>, panelSize: int, a: seq<real>)
    requires WellFormed(opt) && BuildModel(opt, catalog, panelSize).Ok?
    requires Satisfies(BuildModel(opt, catalog, panelSize).value, a)
    ensures var f := opt.poolMembers;
      var n := |f.rows|;
      var sel := Selected(a, n);
      && |sel| == panelSize
      && (forall i :: 0 <= i < n && opt.participatingCol[i] == Some("yes") ==> i in sel)
      && (forall i :: 0 <= i < n && opt.participatingCol[i] == Some("no") ==> i !in sel)
      && (forall e, j :: 0 <= e < |catalog| && 0 <= j < |catalog[e].ranges| ==>
            InRange(catalog[e].ranges[j], |SelectedIn(f, catalog[e].name, catalog[e].ranges[j].name, sel)| as real))
  {
    var f := opt.poolMembers;
    var n := |f.rows|;
    var sel := Selected(a, n);
    SatisfiesBuiltModel(opt, catalog, panelSize, a);
    OnesCount(a, n);
    forall e, j | 0 <= e < |catalog| && 0 <= j < |catalog[e].ranges|
      ensures InRange(catalog[e].ranges[j], |SelectedIn(f, catalog[e].name, catalog[e].ranges[j].name, sel)| as real)
    {
      var col := Membership(f, catalog[e].name, catalog[e].ranges[j].name);
      WeightedCounts(col, a);
      assert (set i: nat | i < |col| && col[i] == 1 && a[i] == 1.0)
        == SelectedIn(f, catalog[e].name, catalog[e].ranges[j].name, sel);
    }
  }

  /** The first variable of each table's deviations, once the persons and earlier tables are counted. */
  function Offset(ohes: seq<Matrix>, t: nat): nat
    requires t <= |ohes|
  {
    if t == 0 then 0 else Offset(ohes, t - 1) + ohes[t - 1].width
  }

  lemma {:induction false} OffsetPrefix(ohes: seq<Matrix>, m: nat, t: nat)
    requires t <= m <= |ohes|
    ensures Offset(ohes[..m], t) == Offset(ohes, t)
  {
    if t > 0 {
      OffsetPrefix(ohes, m, t - 1);
    }
  }

  /** Slot `Offset(t) + j` is column `j` of table `t`, with the table's ideal size. */
  lemma {:induction false} SlotsAt(ohes: seq<Matrix>, panelSize: int, t: nat, j: nat)
    requires t < |ohes| && j < ohes[t].width
    ensures |Slots(ohes, panelSize)| == Offset(ohes, |ohes|)
    ensures Offset(ohes, t) + j < |Slots(ohes, panelSize)|
    ensures Slots(ohes, panelSize)[Offset(ohes, t) + j] == DevSlot(ColumnOf(ohes[t], j), Ideal(panelSize, ohes[t].width))
  {
    var k := |ohes| - 1;
    var prefix := ohes[..k];
    SlotsLength(prefix, panelSize);
    OffsetPrefix(ohes, k, k);
    if t < k {
      SlotsAt(prefix, panelSize, t, j);
      OffsetPrefix(ohes, k, t);
      OffsetAtMost(ohes, t + 1, k);
      assert prefix[t] == ohes[t];
    }
  }

  lemma {:induction false} SlotsLength(ohes: seq<Matrix>, panelSize: int)
    ensures |Slots(ohes, panelSize)| == Offset(ohes, |ohes|)
  {
    if ohes != [] {
      var k := |ohes| - 1;
      SlotsLength(ohes[..k], panelSize);
      OffsetPrefix(ohes, k, k);
    }
  }

  lemma {:induction false} OffsetAtMost(ohes: seq<Matrix>, t: nat, u: nat)
    requires t <= u <= |ohes|
    ensures Offset(ohes, t) <= Offset(ohes, u)
    decreases u - t
  {
    if t < u {
      OffsetAtMost(ohes, t + 1, u);
    }
  }

  /** The selected persons among the first `n` whose label in `d` is label `j`. */
  function Holders(d: IntersectionData, j: nat, a: seq<real>, n: nat): set<nat>
    requires j < |d.intersectionsNames| && n <= |a| && n <= |d.memberValues|
  {
    set i: nat | i < n && a[i] == 1.0 && d.memberValues[i] == d.intersectionsNames[j]
  }

  /** Column `j` of a one-hot matrix, weighted by a 0/1 panel, counts the selected persons with label `j`. */
  lemma OneHotColumnCounts(d: IntersectionData, j: nat, a: seq<real>)
    requires j < |d.intersectionsNames| && |d.memberValues| <= |a|
    requires forall i :: 0 <= i < |d.memberValues| ==> a[i] == 0.0 || a[i] == 1.0
    ensures Weighted(ColumnOf(OneHot(d), j), a) == |Holders(d, j, a, |d.memberValues|)| as real
  {
    var col := ColumnOf(OneHot(d), j);
    assert forall i :: 0 <= i < |col| ==> col[i] == if d.memberValues[i] == d.intersectionsNames[j] then 1 else 0;
    WeightedCounts(col, a);
    assert (set i: nat | i < |col| && col[i] == 1 && a[i] == 1.0) == Holders(d, j, a, |d.memberValues|);
  }

  /**
   * In a feasible assignment, the deviation variable of label `j` of table
   * `t` is at least the distance between the number of selected persons
   * with that label and the panel size spread evenly over the table.
   */
  lemma DeviationOfIntersection(opt: DiversityOptimizer, catalog: seq<DimensionEntry>, panelSize: int,
                                a: seq<real>, t: nat, d: IntersectionData, j: nat)
    requires WellFormed(opt) && Feasible(opt, catalog, panelSize, a)
    requires t < |opt.allOhe| && opt.allOhe[t] == OneHot(d) && j < |d.intersectionsNames|
    ensures |opt.poolMembers.rows| + Offset(opt.allOhe, t) + j < |a|
    ensures |opt.poolMembers.rows| == |d.memberValues|
    ensures a[|opt.poolMembers.rows| + Offset(opt.allOhe, t) + j]
      >= Abs(|Holders(d, j, a, |opt.poolMembers.rows|)| as real - panelSize as real / |d.intersectionsNames| as real)
  {
    assert IsMatrixOf(opt.allOhe[t], |opt.poolMembers.rows|);
    TableDeviationBound(opt.allOhe, panelSize, |opt.poolMembers.rows|, a, t, d, j);
  }

  /** The same bound, from the deviation cover alone. */
  lemma TableDeviationBound(ohes: seq<Matrix>, panelSize: int, n: nat, a: seq<real>, t: nat, d: IntersectionData, j: nat)
    requires |a| == n + |Slots(ohes, panelSize)|
    requires forall i :: 0 <= i < n ==> a[i] == 0.0 || a[i] == 1.0
    requires DeviationsCover(Slots(ohes, panelSize), n, a)
    requires t < |ohes| && ohes[t] == OneHot(d) && IsMatrixOf(ohes[t], n) && j < |d.intersectionsNames|
    ensures n + Offset(ohes, t) + j < |a|
    ensures n == |d.memberValues|
    ensures a[n + Offset(ohes, t) + j] >= Abs(|Holders(d, j, a, n)| as real - panelSize as real / |d.intersectionsNames| as real)
  {
    var slots := Slots(ohes, panelSize);
    var k := Offset(ohes, t) + j;
    SlotsAt(ohes, panelSize, t, j);
    var col := ColumnOf(OneHot(d), j);
    assert slots[k] == DevSlot(col, panelSize as real / |d.intersectionsNames| as real);
    DeviationsCoverAt(slots, n, a, k);
    assert n == |d.memberValues|;
    OneHotColumnCounts(d, j, a);
  }
}
