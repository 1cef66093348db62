/** Conditions over named columns, and the planner's propagation of constants through equality joins. */
module Propagation {
  import opened Basics
  import P = Predicates

  datatype TabCol = TabCol(tab: string, col: string)

  datatype Cond =
    | ColVal(lhs: TabCol, op: P.CompOp, val: int)
    | ColCol(lhs: TabCol, op: P.CompOp, rhs: TabCol)

  datatype ColMeta = ColMeta(kind: int, len: nat)

  /** What each column holds in one combination of rows. */
  type Env = TabCol -> int

  type Filters = map<string, seq<Cond>>

  predicate Holds(env: Env, c: Cond) {
    match c
    case ColVal(lhs, op, val) => P.CheckOp(env(lhs), op, val)
    case ColCol(lhs, op, rhs) => P.CheckOp(env(lhs), op, env(rhs))
  }

  ghost predicate AllHold(env: Env, conds: seq<Cond>) {
    forall i :: 0 <= i < |conds| ==> Holds(env, conds[i])
  }

  function Get(filters: Filters, t: string): seq<Cond> {
    if t in filters then filters[t] else []
  }

  ghost predicate FiltersHold(env: Env, filters: Filters) {
    forall t {:trigger Get(filters, t)} :: AllHold(env, Get(filters, t))
  }

  /** A condition is filed under the table of its left column. */
  ghost predicate Filed(filters: Filters) {
    forall t, i {:trigger Get(filters, t)[i]} :: 0 <= i < |Get(filters, t)| ==> Get(filters, t)[i].lhs.tab == t
  }

  predicate IsConstant(c: Cond, col: string) {
    c.ColVal? && c.op == P.EQ && c.lhs.col == col
  }

  ghost predicate HasConstant(filters: Filters, c: TabCol) {
    exists i :: 0 <= i < |Get(filters, c.tab)| && IsConstant(Get(filters, c.tab)[i], c.col)
  }

  /** The first equality of the list with a constant. */
  function FirstConstant(conds: seq<Cond>, col: string): (r: Option<Cond>)
    ensures r.Some? <==> exists i :: 0 <= i < |conds| && IsConstant(conds[i], col)
    ensures r.Some? ==> r.value in conds && IsConstant(r.value, col)
    decreases |conds|
  {
    if conds == [] then None else if IsConstant(conds[0], col) then Some(conds[0]) else FirstConstant(conds[1..], col)
  }

  function ConstantOf(filters: Filters, c: TabCol): (r: Option<Cond>)
    ensures r.Some? <==> HasConstant(filters, c)
    ensures r.Some? ==> r.value in Get(filters, c.tab) && IsConstant(r.value, c.col)
  {
    FirstConstant(Get(filters, c.tab), c.col)
  }

  method FindConstant(filters: Filters, c: TabCol) returns (found: Option<Cond>)
    ensures found == ConstantOf(filters, c)
    ensures found.Some? <==> HasConstant(filters, c)
    ensures found.Some? ==> found.value in Get(filters, c.tab) && IsConstant(found.value, c.col)
  {
    var conds := Get(filters, c.tab);
    for i := 0 to |conds|
      invariant FirstConstant(conds, c.col) == FirstConstant(conds[i..], c.col)
    {
      if IsConstant(conds[i], c.col) {
        return Some(conds[i]);
      }
      assert conds[i..][1..] == conds[i + 1..];
    }
    found := None;
  }

  predicate IsEqualityJoin(c: Cond) {
    c.ColCol? && c.op == P.EQ
  }

  /** Both columns are known and agree in type and length. */
  predicate Compatible(meta: map<TabCol, ColMeta>, a: TabCol, b: TabCol) {
    a in meta && b in meta && meta[a] == meta[b]
  }

  ghost predicate ClosedAt(meta: map<TabCol, ColMeta>, filters: Filters, c: Cond) {
    IsEqualityJoin(c) && Compatible(meta, c.lhs, c.rhs) ==>
        (HasConstant(filters, c.lhs) <==> HasConstant(filters, c.rhs))
  }

  /** Every list of `b` continues the one of `a`. */
  ghost predicate Extends(a: Filters, b: Filters) {
    forall t {:trigger Get(b, t)} :: Get(a, t) <= Get(b, t)
  }

  /** An equality of a joined column with a constant that some equality in `a` already compares with. */
  ghost predicate Carried(a: Filters, joins: seq<Cond>, c: Cond) {
    && c.ColVal? && c.op == P.EQ && c.lhs in Sides(joins)
    && exists t, d {:trigger d in Get(a, t)} :: d in Get(a, t) && d.ColVal? && d.op == P.EQ && d.val == c.val
  }

  /** Conditions of `b` that are not in `a` are carried constants. */
  ghost predicate AddsConstants(a: Filters, joins: seq<Cond>, b: Filters) {
    forall t, c {:trigger c in Get(b, t)} :: c in Get(b, t) ==> c in Get(a, t) || Carried(a, joins, c)
  }

  /** The equalities between columns among the joins hold. */
  ghost predicate EqualitiesHold(env: Env, joins: seq<Cond>) {
    forall i :: 0 <= i < |joins| && IsEqualityJoin(joins[i]) ==> Holds(env, joins[i])
  }

  /** Whatever satisfies the filters of `a` and the equality joins satisfies the filters of `b`. */
  ghost predicate Implied(a: Filters, joins: seq<Cond>, b: Filters) {
    forall env: Env {:trigger FiltersHold(env, b)} :: FiltersHold(env, a) && EqualitiesHold(env, joins) ==>
        FiltersHold(env, b)
  }

  /** `b` grew from `a` by implied constants. */
  ghost predicate Grown(a: Filters, joins: seq<Cond>, b: Filters) {
    Filed(b) && Extends(a, b) && AddsConstants(a, joins, b) && Implied(a, joins, b)
  }

  // ---------------------------------------------------------------- columns still without a constant

  ghost function Sides(joins: seq<Cond>): set<TabCol> {
    (set i | 0 <= i < |joins| && joins[i].ColCol? :: joins[i].lhs) + (set i | 0 <= i < |joins| && joins[i].ColCol? ::
        joins[i].rhs)
  }

  ghost function Missing(filters: Filters, joins: seq<Cond>): set<TabCol> {
    set c | c in Sides(joins) && !HasConstant(filters, c)
  }

  function Add(filters: Filters, c: Cond): Filters {
    filters[c.lhs.tab := Get(filters, c.lhs.tab) + [c]]
  }

  lemma AddConstant(filters: Filters, c: Cond)
    requires IsConstant(c, c.lhs.col)
    ensures HasConstant(Add(filters, c), c.lhs)
    ensures forall d {:trigger HasConstant(Add(filters, c), d)} :: HasConstant(filters, d) ==>
              HasConstant(Add(filters, c), d)
  {
    var n := |Get(filters, c.lhs.tab)|;
    assert Get(Add(filters, c), c.lhs.tab)[n] == c;
    forall d | HasConstant(filters, d) ensures HasConstant(Add(filters, c), d) {
      var i :| 0 <= i < |Get(filters, d.tab)| && IsConstant(Get(filters, d.tab)[i], d.col);
      assert Get(Add(filters, c), d.tab)[i] == Get(filters, d.tab)[i];
    }
  }

  lemma AddShrinks(filters: Filters, joins: seq<Cond>, c: Cond)
    requires IsConstant(c, c.lhs.col) && c.lhs in Missing(filters, joins)
    ensures |Missing(Add(filters, c), joins)| < |Missing(filters, joins)|
  {
    AddConstant(filters, c);
    var a, b := Missing(filters, joins), Missing(Add(filters, c), joins);
    forall d | d in b ensures d in a - {c.lhs} { }
    SubsetSize(b, a - {c.lhs});
  }

  /** A constant carried across an equality join is implied by the join and the constant. */
  lemma DerivedIsImplied(filters0: Filters, filters: Filters, joins: seq<Cond>, k: nat, constant: Cond, target: TabCol)
    requires Implied(filters0, joins, filters) && Filed(filters) && k < |joins| && IsEqualityJoin(joins[k])
    requires constant.ColVal? && constant.op == P.EQ && constant in Get(filters, constant.lhs.tab)
    requires (joins[k].lhs == constant.lhs && joins[k].rhs == target)
             || (joins[k].rhs == constant.lhs && joins[k].lhs == target)
    ensures Implied(filters0, joins, Add(filters, ColVal(target, constant.op, constant.val)))
  {
    var derived := ColVal(target, constant.op, constant.val);
    var after := Add(filters, derived);
    forall env: Env | FiltersHold(env, filters0) && EqualitiesHold(env, joins) ensures FiltersHold(env, after) {
      assert FiltersHold(env, filters);
      var i :| 0 <= i < |Get(filters, constant.lhs.tab)| && Get(filters, constant.lhs.tab)[i] == constant;
      assert AllHold(env, Get(filters, constant.lhs.tab));
      assert Holds(env, constant) && Holds(env, joins[k]);
      assert Holds(env, derived);
      forall t ensures AllHold(env, Get(after, t)) {
        assert AllHold(env, Get(filters, t));
      }
    }
  }

  // ---------------------------------------------------------------- the rewrite

  /** One look at a join: a constant on one side only is carried over to the other. */
  function CarryOver(meta: map<TabCol, ColMeta>, filters: Filters, join: Cond): Filters {
    if !IsEqualityJoin(join) || !Compatible(meta, join.lhs, join.rhs) then filters else
    var left, right := ConstantOf(filters, join.lhs), ConstantOf(filters, join.rhs);
    if left.Some? && right.None? then Add(filters, ColVal(join.rhs, P.EQ, left.value.val))
    else if right.Some? && left.None? then Add(filters, ColVal(join.lhs, P.EQ, right.value.val))
    else filters
  }

  /** The first `k` joins in their order. */
  ghost function Pass(meta: map<TabCol, ColMeta>, filters: Filters, joins: seq<Cond>, k: nat): Filters
    requires k <= |joins|
  {
    if k == 0 then filters else CarryOver(meta, Pass(meta, filters, joins, k - 1), joins[k - 1])
  }

  /** Passes over all joins until one changes nothing. */
  ghost function Propagated(meta: map<TabCol, ColMeta>, filters: Filters, joins: seq<Cond>): Filters
    decreases |Missing(filters, joins)|
  {
    var next := Pass(meta, filters, joins, |joins|);
    PassShrinks(meta, filters, joins, |joins|);
    if next == filters then filters else Propagated(meta, next, joins)
  }

  /** A look that changes the filters gives a column its constant; otherwise the join is closed. */
  lemma CarryShrinks(meta: map<TabCol, ColMeta>, filters: Filters, joins: seq<Cond>, k: nat)
    requires k < |joins|
    ensures var next := CarryOver(meta, filters, joins[k]);
            if |Missing(next, joins)| < |Missing(filters, joins)| then next != filters
            else next == filters && ClosedAt(meta, filters, joins[k])
  {
    var join, next := joins[k], CarryOver(meta, filters, joins[k]);
    if IsEqualityJoin(join) && Compatible(meta, join.lhs, join.rhs) {
      var left, right := ConstantOf(filters, join.lhs), ConstantOf(filters, join.rhs);
      if left.Some? && right.None? {
        assert join.rhs in Missing(filters, joins);
        AddShrinks(filters, joins, ColVal(join.rhs, P.EQ, left.value.val));
      } else if right.Some? && left.None? {
        assert join.lhs in Missing(filters, joins);
        AddShrinks(filters, joins, ColVal(join.lhs, P.EQ, right.value.val));
      }
    }
  }

  lemma {:induction false} PassShrinks(meta: map<TabCol, ColMeta>, filters: Filters, joins: seq<Cond>, k: nat)
    requires k <= |joins|
    ensures var next := Pass(meta, filters, joins, k);
            if |Missing(next, joins)| < |Missing(filters, joins)| then next != filters
            else next == filters && forall j :: 0 <= j < k ==> ClosedAt(meta, filters, joins[j])
  {
    if k > 0 {
      PassShrinks(meta, filters, joins, k - 1);
      CarryShrinks(meta, Pass(meta, filters, joins, k - 1), joins, k - 1);
    }
  }

  lemma AddGrows(filters0: Filters, filters: Filters, joins: seq<Cond>, k: nat, constant: Cond, target: TabCol)
    requires Grown(filters0, joins, filters) && k < |joins| && IsEqualityJoin(joins[k])
    requires constant.ColVal? && constant.op == P.EQ && constant in Get(filters, constant.lhs.tab)
    requires (joins[k].lhs == constant.lhs && joins[k].rhs == target)
             || (joins[k].rhs == constant.lhs && joins[k].lhs == target)
    ensures Grown(filters0, joins, Add(filters, ColVal(target, P.EQ, constant.val)))
  {
    DerivedIsImplied(filters0, filters, joins, k, constant, target);
    assert target in Sides(joins);
    var derived := ColVal(target, P.EQ, constant.val);
    assert Carried(filters0, joins, derived) by {
      if constant !in Get(filters0, constant.lhs.tab) { assert Carried(filters0, joins, constant); }
    }
    AddKeeps(filters0, filters, joins, derived);
  }

  lemma CarryGrows(meta: map<TabCol, ColMeta>, filters0: Filters, filters: Filters, joins: seq<Cond>, k: nat,
                   next: Filters)
    requires Grown(filters0, joins, filters) && k < |joins| && next == CarryOver(meta, filters, joins[k])
    ensures Grown(filters0, joins, next)
  {
    var join := joins[k];
    if IsEqualityJoin(join) && Compatible(meta, join.lhs, join.rhs) {
      var left, right := ConstantOf(filters, join.lhs), ConstantOf(filters, join.rhs);
      if left.Some? && right.None? {
        ConstantIsFiled(filters, join.lhs);
        AddGrows(filters0, filters, joins, k, left.value, join.rhs);
      } else if right.Some? && left.None? {
        ConstantIsFiled(filters, join.rhs);
        AddGrows(filters0, filters, joins, k, right.value, join.lhs);
      }
    }
  }

  lemma ConstantIsFiled(filters: Filters, c: TabCol)
    requires Filed(filters) && ConstantOf(filters, c).Some?
    ensures ConstantOf(filters, c).value.lhs == c
  {
    var found := ConstantOf(filters, c).value;
    var i :| 0 <= i < |Get(filters, c.tab)| && Get(filters, c.tab)[i] == found;
    assert Get(filters, c.tab)[i].lhs.tab == c.tab;
  }

  lemma {:induction false} PassGrows(meta: map<TabCol, ColMeta>, filters0: Filters, filters: Filters, joins: seq<Cond>,
                                     k: nat, next: Filters)
    requires Grown(filters0, joins, filters) && k <= |joins| && next == Pass(meta, filters, joins, k)
    ensures Grown(filters0, joins, next)
  {
    if k > 0 {
      var before := Pass(meta, filters, joins, k - 1);
      PassGrows(meta, filters0, filters, joins, k - 1, before);
      CarryGrows(meta, filters0, before, joins, k - 1, next);
    }
  }

  /** The filters only grow, by implied constants, and in the end no compatible equality join has a
      constant on one side only. */
  lemma {:induction false} PropagatedIsClosed(meta: map<TabCol, ColMeta>, filters0: Filters, filters: Filters,
                                              joins: seq<Cond>)
    requires Grown(filters0, joins, filters)
    ensures Grown(filters0, joins, Propagated(meta, filters, joins))
    ensures forall k :: 0 <= k < |joins| ==> ClosedAt(meta, Propagated(meta, filters, joins), joins[k])
    decreases |Missing(filters, joins)|
  {
    var next := Pass(meta, filters, joins, |joins|);
    PassShrinks(meta, filters, joins, |joins|);
    PassGrows(meta, filters0, filters, joins, |joins|, next);
    if next != filters {
      PropagatedIsClosed(meta, filters0, next, joins);
    }
  }

  method Carry(meta: map<TabCol, ColMeta>, filters: Filters, joins: seq<Cond>, k: nat)
      returns (out: Filters, changed: bool)
    requires k < |joins|
    ensures out == CarryOver(meta, filters, joins[k]) && (changed <==> out != filters)
    ensures changed ==> |Missing(out, joins)| < |Missing(filters, joins)|
  {
    CarryShrinks(meta, filters, joins, k);
    out, changed := filters, false;
    var join := joins[k];
    if !IsEqualityJoin(join) {
      return;
    }
    var left := FindConstant(filters, join.lhs);
    var right := FindConstant(filters, join.rhs);
    var source, target, constant;
    if left.Some? && right.None? {
      source, target, constant := join.lhs, join.rhs, left.value;
    } else if right.Some? && left.None? {
      source, target, constant := join.rhs, join.lhs, right.value;
    } else {
      return;
    }
    if !Compatible(meta, source, target) {
      return;
    }
    out, changed := Add(filters, ColVal(target, constant.op, constant.val)), true;
    assert Get(out, target.tab) != Get(filters, target.tab);
  }

  lemma AddKeeps(filters0: Filters, filters: Filters, joins: seq<Cond>, c: Cond)
    requires Filed(filters) && Extends(filters0, filters) && AddsConstants(filters0, joins, filters)
    ensures Filed(Add(filters, c)) && Extends(filters0, Add(filters, c))
            && (Carried(filters0, joins, c) ==> AddsConstants(filters0, joins, Add(filters, c)))
  {
    var out := Add(filters, c);
    forall t, i | 0 <= i < |Get(out, t)| ensures Get(out, t)[i].lhs.tab == t {
      if i < |Get(filters, t)| { assert Get(out, t)[i] == Get(filters, t)[i]; }
    }
    assert forall t :: Get(out, t) == if t == c.lhs.tab then Get(filters, t) + [c] else Get(filters, t);
    forall t ensures Get(filters0, t) <= Get(out, t) {
      assert Get(filters0, t) <= Get(filters, t) <= Get(out, t);
    }
  }

  /** Repeats the pass over all joins until one changes nothing. */
  method PropagateEqualityConstants(meta: map<TabCol, ColMeta>, filters0: Filters, joins: seq<Cond>)
      returns (filters: Filters)
    requires Filed(filters0)
    ensures filters == Propagated(meta, filters0, joins) && Grown(filters0, joins, filters)
    ensures forall k :: 0 <= k < |joins| ==> ClosedAt(meta, filters, joins[k])
  {
    PropagatedIsClosed(meta, filters0, filters0, joins);
    filters := filters0;
    var changed := true;
    while changed
      invariant Propagated(meta, filters, joins) == Propagated(meta, filters0, joins)
      invariant !changed ==> filters == Propagated(meta, filters0, joins)
      decreases |Missing(filters, joins)|, changed
    {
      changed := false;
      ghost var before := filters;
      for k := 0 to |joins|
        invariant filters == Pass(meta, before, joins, k)
        invariant changed ==> |Missing(filters, joins)| < |Missing(before, joins)|
        invariant !changed ==> filters == before
      {
        var now;
        filters, now := Carry(meta, filters, joins, k);
        changed := changed || now;
      }
    }
  }

  /** The rewrite never changes which rows qualify. */
  lemma SameRows(filters0: Filters, filters: Filters, joins: seq<Cond>, env: Env)
    requires Grown(filters0, joins, filters)
    ensures FiltersHold(env, filters) && EqualitiesHold(env, joins) <==>
              FiltersHold(env, filters0) && EqualitiesHold(env, joins)
  {
    if FiltersHold(env, filters) {
      forall t ensures AllHold(env, Get(filters0, t)) {
        assert Get(filters0, t) <= Get(filters, t) && AllHold(env, Get(filters, t));
        forall i | 0 <= i < |Get(filters0, t)| ensures Holds(env, Get(filters0, t)[i]) {
          assert Get(filters0, t)[i] == Get(filters, t)[i];
        }
      }
    }
  }
}
