/**
 * A mixed-integer linear model as data: variables, linear constraints and a
 * linear objective to minimise, together with what it means for an
 * assignment of values to the variables to satisfy the model. The solver
 * that searches for an optimal assignment is not part of this model.
 */
module LinearModel {

  /** A binary variable takes 0 or 1; a continuous one any value >= 0. */
  datatype VarType = Binary | Continuous

  /** `coef` times variable `v`. */
  datatype Term = Term(v: nat, coef: real)

  /** The sum of the terms plus the constant. */
  datatype LinExpr = LinExpr(terms: seq<Term>, constant: real)

  datatype Sense = AtLeast | AtMost | Equal

  /** `lhs >= 0`, `lhs <= 0` or `lhs == 0`. */
  datatype Constraint = Constraint(lhs: LinExpr, sense: Sense)

  datatype Model = Model(vars: seq<VarType>, constrs: seq<Constraint>, objective: LinExpr)

  /** The value of the terms under assignment `a` (variables outside `a` count as 0). */
  function TermsValue(ts: seq<Term>, a: seq<real>): real {
    if ts == [] then 0.0
    else
      var t := ts[|ts| - 1];
      TermsValue(ts[..|ts| - 1], a) + if t.v < |a| then t.coef * a[t.v] else 0.0
  }

  function Value(e: LinExpr, a: seq<real>): real {
    TermsValue(e.terms, a) + e.constant
  }

  predicate Holds(c: Constraint, a: seq<real>) {
    match c.sense
    case AtLeast => Value(c.lhs, a) >= 0.0
    case AtMost => Value(c.lhs, a) <= 0.0
    case Equal => Value(c.lhs, a) == 0.0
  }

  predicate AllHold(cs: seq<Constraint>, a: seq<real>) {
    forall k :: 0 <= k < |cs| ==> Holds(cs[k], a)
  }

  /** One value per variable, within the variable's domain. */
  predicate InDomain(vars: seq<VarType>, a: seq<real>) {
    && |a| == |vars|
    && forall v :: 0 <= v < |a| ==> a[v] >= 0.0 && (vars[v] == Binary ==> a[v] == 0.0 || a[v] == 1.0)
  }

  /** `a` is a feasible assignment of the model. */
  predicate Satisfies(m: Model, a: seq<real>) {
    InDomain(m.vars, a) && AllHold(m.constrs, a)
  }

  function ObjectiveValue(m: Model, a: seq<real>): real {
    Value(m.objective, a)
  }

  lemma {:induction false} TermsValueAppend(ts: seq<Term>, us: seq<Term>, a: seq<real>)
    ensures TermsValue(ts + us, a) == TermsValue(ts, a) + TermsValue(us, a)
    decreases |us|
  {
    if us == [] {
      assert ts + us == ts;
    } else {
      var us' := us[..|us| - 1];
      assert (ts + us)[..|ts + us| - 1] == ts + us';
      assert (ts + us)[|ts + us| - 1] == us[|us| - 1];
      TermsValueAppend(ts, us', a);
    }
  }

  lemma AllHoldAppend(cs: seq<Constraint>, ds: seq<Constraint>, a: seq<real>)
    ensures AllHold(cs + ds, a) <==> AllHold(cs, a) && AllHold(ds, a)
  {
    if AllHold(cs, a) && AllHold(ds, a) {
      forall k | 0 <= k < |cs + ds| ensures Holds((cs + ds)[k], a) {
        if k >= |cs| {
          assert (cs + ds)[k] == ds[k - |cs|];
        }
      }
    }
    if AllHold(cs + ds, a) {
      forall k | 0 <= k < |ds| ensures Holds(ds[k], a) {
        assert (cs + ds)[|cs| + k] == ds[k];
      }
      forall k | 0 <= k < |cs| ensures Holds(cs[k], a) {
        assert (cs + ds)[k] == cs[k];
      }
    }
  }

  /** The model under construction, changed in place by adding variables and constraints. */
  class MipModel {
    var vars: seq<VarType>
    var constrs: seq<Constraint>
    var objective: LinExpr

    constructor ()
      ensures vars == [] && constrs == [] && objective == LinExpr([], 0.0)
    {
      vars := [];
      constrs := [];
      objective := LinExpr([], 0.0);
    }

    /** Adds a variable and returns its index. */
    method AddVar(t: VarType) returns (v: nat)
      modifies this
      ensures v == |old(vars)| && vars == old(vars) + [t]
      ensures constrs == old(constrs) && objective == old(objective)
    {
      v := |vars|;
      vars := vars + [t];
    }

    method AddConstr(c: Constraint)
      modifies this
      ensures constrs == old(constrs) + [c]
      ensures vars == old(vars) && objective == old(objective)
    {
      constrs := constrs + [c];
    }

    /** Sets the expression to minimise. */
    method SetObjective(e: LinExpr)
      modifies this
      ensures objective == e
      ensures vars == old(vars) && constrs == old(constrs)
    {
      objective := e;
    }

    function Snapshot(): Model
      reads this
    {
      Model(vars, constrs, objective)
    }
  }
}
