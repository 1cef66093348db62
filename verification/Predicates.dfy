/** WHERE conditions and their evaluation on a record. */
module Predicates {

  datatype CompOp = EQ | NE | LT | GT | LE | GE

  /** A record: one value per column, strings and floats counted in column order. */
  type Record = seq<int>

  /** Column against constant, or column against column of the same record. */
  datatype Condition =
    | ColVal(lhs: nat, op: CompOp, val: int)
    | ColCol(lhs: nat, op: CompOp, rhs: nat)

  /** `CheckOp` applied to the comparison of `a` with `b`. */
  predicate CheckOp(a: int, op: CompOp, b: int) {
    match op
    case EQ => a == b
    case NE => a != b
    case LT => a < b
    case GT => a > b
    case LE => a <= b
    case GE => a >= b
  }

  predicate Bound(rec: Record, c: Condition) {
    c.lhs < |rec| && (c.ColCol? ==> c.rhs < |rec|)
  }

  predicate Eval(rec: Record, c: Condition)
    requires Bound(rec, c)
  {
    match c
    case ColVal(l, op, v) => CheckOp(rec[l], op, v)
    case ColCol(l, op, r) => CheckOp(rec[l], op, rec[r])
  }

  predicate AllBound(rec: Record, conds: seq<Condition>) {
    forall i :: 0 <= i < |conds| ==> Bound(rec, conds[i])
  }

  predicate Holds(rec: Record, conds: seq<Condition>)
    requires AllBound(rec, conds)
  {
    forall i :: 0 <= i < |conds| ==> Eval(rec, conds[i])
  }

  /** Conditions are joined by AND; the first that fails decides. */
  method EvalConds(rec: Record, conds: seq<Condition>) returns (ok: bool)
    requires AllBound(rec, conds)
    ensures ok <==> Holds(rec, conds)
  {
    var i := 0;
    while i < |conds|
      invariant 0 <= i <= |conds|
      invariant forall j :: 0 <= j < i ==> Eval(rec, conds[j])
    {
      if !Eval(rec, conds[i]) {
        return false;
      }
      i := i + 1;
    }
    return true;
  }
}
