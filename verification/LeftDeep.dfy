/** The left-deep join plan and what it computes. */
module LeftDeep {
  import opened Basics
  import opened Propagation
  import opened IxIndex
  import opened JoinExec
  import P = Predicates
  import IxModel

  datatype Query = Query(tables: seq<string>, whereConds: seq<Cond>, onConds: seq<Cond>)

  datatype Plan =
    | Scan(table: string, filter: seq<Cond>)
    | NestLoop(left: Plan, right: Plan, conds: seq<Cond>)
    | IndexNestLoop(left: Plan, table: string, filter: seq<Cond>, conds: seq<Cond>, outer: TabCol, inner: TabCol)

  /** A WHERE condition that a single scan can check. */
  predicate OneTable(c: Cond) {
    c.ColVal? || c.rhs.tab == c.lhs.tab
  }

  predicate Connects(c: Cond, joined: seq<string>, right: string) {
    && c.ColCol?
    && ((c.lhs.tab == right && c.rhs.tab in joined) || (c.rhs.tab == right && c.lhs.tab in joined))
  }

  // ---------------------------------------------------------------- sorting out the conditions

  /** The one-table conditions by table, in their order. */
  function TableFilters(conds: seq<Cond>): Filters
    decreases |conds|
  {
    if conds == [] then map[] else
    var before, c := TableFilters(conds[..|conds| - 1]), conds[|conds| - 1];
    if OneTable(c) then Add(before, c) else before
  }

  /** The conditions between two tables, in their order. */
  function CrossConds(conds: seq<Cond>): seq<Cond>
    decreases |conds|
  {
    if conds == [] then [] else
    var before, c := CrossConds(conds[..|conds| - 1]), conds[|conds| - 1];
    if OneTable(c) then before else before + [c]
  }

  /** All of ON, whatever its kind, and the cross-table conditions of WHERE. */
  function JoinConds(q: Query): seq<Cond> {
    q.onConds + CrossConds(q.whereConds)
  }

  lemma {:induction false} Classified(conds: seq<Cond>)
    ensures Filed(TableFilters(conds))
    ensures forall c, t :: c in Get(TableFilters(conds), t) <==> c in conds && OneTable(c) && c.lhs.tab == t
    ensures forall c :: c in CrossConds(conds) <==> c in conds && !OneTable(c)
    decreases |conds|
  {
    if conds != [] {
      var front, c := conds[..|conds| - 1], conds[|conds| - 1];
      Classified(front);
      assert conds == front + [c];
      var before, after := TableFilters(front), TableFilters(conds);
      if OneTable(c) {
        AddKeeps(before, before, [], c);
        assert forall t :: Get(after, t) == if t == c.lhs.tab then Get(before, t) + [c] else Get(before, t);
      }
    }
  }

  /** Filters by table, and the conditions left for the joins. */
  method Classify(q: Query) returns (filters: Filters, joins: seq<Cond>)
    ensures filters == TableFilters(q.whereConds) && joins == JoinConds(q)
    ensures Filed(filters)
    ensures forall c, t :: c in Get(filters, t) <==> c in q.whereConds && OneTable(c) && c.lhs.tab == t
    ensures forall c :: c in joins <==> c in q.onConds || (c in q.whereConds && !OneTable(c))
  {
    filters, joins := map[], q.onConds;
    for i := 0 to |q.whereConds|
      invariant filters == TableFilters(q.whereConds[..i]) && joins == q.onConds + CrossConds(q.whereConds[..i])
    {
      var c := q.whereConds[i];
      assert q.whereConds[..i + 1][..i] == q.whereConds[..i];
      if OneTable(c) {
        filters := Add(filters, c);
      } else {
        joins := joins + [c];
      }
    }
    assert q.whereConds[..|q.whereConds|] == q.whereConds;
    Classified(q.whereConds);
  }

  /** The join conditions that tie `right` to the tables before it. */
  method LevelConds(joins: seq<Cond>, joined: seq<string>, right: string) returns (conds: seq<Cond>)
    ensures forall c :: c in conds <==> c in joins && Connects(c, joined, right)
  {
    conds := [];
    for i := 0 to |joins|
      invariant forall c :: c in conds <==> c in joins[..i] && Connects(c, joined, right)
    {
      assert joins[..i + 1] == joins[..i] + [joins[i]];
      if Connects(joins[i], joined, right) {
        conds := conds + [joins[i]];
      }
    }
    assert joins[..|joins|] == joins;
  }

  /** `inner` of the new table equals `outer` of an earlier one by one of the conditions. */
  predicate ProbesBy(conds: seq<Cond>, joined: seq<string>, right: string, outer: TabCol, inner: TabCol) {
    && inner.tab == right && outer.tab in joined
    && (ColCol(inner, P.EQ, outer) in conds || ColCol(outer, P.EQ, inner) in conds)
  }

  /** First condition that allows an index join. */
  method ChooseProbe(conds: seq<Cond>, joined: seq<string>, right: string, indexed: set<TabCol>)
      returns (r: Option<(TabCol, TabCol)>)
    requires forall c :: c in conds ==> Connects(c, joined, right)
    ensures r.Some? ==> ProbesBy(conds, joined, right, r.value.0, r.value.1) && r.value.1 in indexed
    ensures r.None? ==> forall outer, inner :: ProbesBy(conds, joined, right, outer, inner) ==> inner !in indexed
  {
    for i := 0 to |conds|
      invariant forall j :: 0 <= j < i && conds[j].ColCol? && conds[j].op == P.EQ ==>
                  && !(conds[j].lhs.tab == right && conds[j].rhs.tab in joined && conds[j].lhs in indexed)
                  && !(conds[j].rhs.tab == right && conds[j].lhs.tab in joined && conds[j].rhs in indexed)
    {
      var c := conds[i];
      assert c in conds;
      if c.op == P.EQ {
        if c.lhs.tab == right && c.rhs.tab in joined && c.lhs in indexed {
          assert c == ColCol(c.lhs, P.EQ, c.rhs);
          return Some((c.rhs, c.lhs));
        }
        if c.rhs.tab == right && c.lhs.tab in joined && c.rhs in indexed {
          assert c == ColCol(c.lhs, P.EQ, c.rhs);
          return Some((c.lhs, c.rhs));
        }
      }
    }
    r := None;
  }

  // ---------------------------------------------------------------- the plan

  ghost predicate LevelOk(conds: seq<Cond>, joins: seq<Cond>, joined: seq<string>, right: string) {
    forall c :: c in conds <==> c in joins && Connects(c, joined, right)
  }

  /** `plan` is a left-deep plan for these tables in this order. */
  ghost predicate PlanFor(plan: Plan, tables: seq<string>, filters: Filters, joins: seq<Cond>, indexed: set<TabCol>)
    decreases |tables|
  {
    && tables != []
    && var n := |tables| - 1;
    && match plan
       case Scan(t, f) => n == 0 && t == tables[0] && f == Get(filters, t)
       case NestLoop(left, right, conds) =>
         && n > 0 && PlanFor(left, tables[..n], filters, joins, indexed)
         && right == Scan(tables[n], Get(filters, tables[n])) && LevelOk(conds, joins, tables[..n], tables[n])
       case IndexNestLoop(left, t, f, conds, outer, inner) =>
         && n > 0 && PlanFor(left, tables[..n], filters, joins, indexed)
         && t == tables[n] && f == Get(filters, t) && LevelOk(conds, joins, tables[..n], t)
         && ProbesBy(conds, tables[..n], t, outer, inner) && inner in indexed
  }

  /** What the scans check: the filters from WHERE with the constants the joins carried over. */
  ghost function ScanFilters(q: Query, meta: map<TabCol, ColMeta>): Filters {
    Propagated(meta, TableFilters(q.whereConds), JoinConds(q))
  }

  /** `make_left_deep_join_plan`: no plan exactly when FROM is empty. */
  method MakeLeftDeepJoinPlan(q: Query, meta: map<TabCol, ColMeta>, indexed: set<TabCol>) returns (r: Option<Plan>)
    ensures r.None? <==> q.tables == []
    ensures r.Some? ==> PlanFor(r.value, q.tables, ScanFilters(q, meta), JoinConds(q), indexed)
  {
    if q.tables == [] {
      return None;
    }
    var filters0, joins := Classify(q);
    var filters := PropagateEqualityConstants(meta, filters0, joins);
    var plan := JoinTables(q.tables, filters, joins, indexed);
    r := Some(plan);
  }

  /** Joins the tables from left to right. */
  method JoinTables(tables: seq<string>, filters: Filters, joins: seq<Cond>, indexed: set<TabCol>) returns (plan: Plan)
    requires tables != []
    ensures PlanFor(plan, tables, filters, joins, indexed)
  {
    plan := Scan(tables[0], Get(filters, tables[0]));
    assert tables[..1] == [tables[0]];
    for n := 1 to |tables|
      invariant PlanFor(plan, tables[..n], filters, joins, indexed)
    {
      var right := tables[n];
      var conds := LevelConds(joins, tables[..n], right);
      var key := ChooseProbe(conds, tables[..n], right, indexed);
      if key.Some? {
        plan := IndexNestLoop(plan, right, Get(filters, right), conds, key.value.0, key.value.1);
      } else {
        plan := NestLoop(plan, Scan(right, Get(filters, right)), conds);
      }
      assert tables[..n + 1][..n] == tables[..n];
    }
    assert tables[..|tables|] == tables;
  }

  ghost predicate WhereKept(q: Query, filters: Filters) {
    forall c :: c in q.whereConds && OneTable(c) ==> c in Get(filters, c.lhs.tab)
  }

  ghost predicate OneTabled(filters: Filters) {
    forall t, c :: c in Get(filters, t) ==> OneTable(c)
  }

  ghost predicate FromWhere(q: Query, filters: Filters) {
    q.whereConds == [] ==> forall t :: Get(filters, t) == []
  }

  /** Filters that are not conditions of WHERE are on columns of the joins. */
  ghost predicate OnKnownColumns(q: Query, filters: Filters, joins: seq<Cond>) {
    forall t, c :: c in Get(filters, t) ==> c in q.whereConds || (c.ColVal? && c.lhs in Sides(joins))
  }

  ghost predicate FiltersImplied(q: Query, filters: Filters, joins: seq<Cond>) {
    forall env: Env {:trigger FiltersHold(env, filters)} ::
      EqualitiesHold(env, joins) && (forall c :: c in q.whereConds && OneTable(c) ==> Holds(env, c)) ==>
          FiltersHold(env, filters)
  }

  /** What the planner makes of the conditions of a query: the one-table conditions of WHERE are
      among the filters of their tables, and any further filter is implied by the equality joins. */
  ghost predicate Sorted(q: Query, filters: Filters, joins: seq<Cond>) {
    && Filed(filters)
    && (forall c :: c in joins <==> c in q.onConds || (c in q.whereConds && !OneTable(c)))
    && OneTabled(filters) && WhereKept(q, filters) && FromWhere(q, filters)
    && OnKnownColumns(q, filters, joins) && FiltersImplied(q, filters, joins)
  }

  lemma PlannerSorts(q: Query, meta: map<TabCol, ColMeta>)
    ensures Sorted(q, ScanFilters(q, meta), JoinConds(q))
  {
    var filters0, filters, joins := TableFilters(q.whereConds), ScanFilters(q, meta), JoinConds(q);
    Classified(q.whereConds);
    PropagatedIsClosed(meta, filters0, filters0, joins);
    FiltersKeep(q, filters0, filters);
    FiltersFollow(q, filters0, filters, joins);
    FiltersAreLocal(q, filters0, filters, joins);
  }

  lemma FiltersFollow(q: Query, filters0: Filters, filters: Filters, joins: seq<Cond>)
    requires forall c, t :: c in Get(filters0, t) ==> c in q.whereConds && OneTable(c)
    requires Implied(filters0, joins, filters)
    ensures FiltersImplied(q, filters, joins)
  {
    forall env: Env | EqualitiesHold(env, joins) && (forall c :: c in q.whereConds && OneTable(c) ==> Holds(env, c))
      ensures FiltersHold(env, filters)
    {
      forall t ensures AllHold(env, Get(filters0, t)) {
        forall i | 0 <= i < |Get(filters0, t)| ensures Holds(env, Get(filters0, t)[i]) {
          assert Get(filters0, t)[i] in Get(filters0, t);
        }
      }
      assert FiltersHold(env, filters0);
    }
  }

  lemma FiltersKeep(q: Query, filters0: Filters, filters: Filters)
    requires forall d, t :: d in Get(filters0, t) <==> d in q.whereConds && OneTable(d) && d.lhs.tab == t
    requires Extends(filters0, filters)
    ensures WhereKept(q, filters)
  {
    forall c | c in q.whereConds && OneTable(c) ensures c in Get(filters, c.lhs.tab) {
      assert Get(filters0, c.lhs.tab) <= Get(filters, c.lhs.tab) && c in Get(filters0, c.lhs.tab);
    }
  }

  lemma FiltersAreLocal(q: Query, filters0: Filters, filters: Filters, joins: seq<Cond>)
    requires forall c, t :: c in Get(filters0, t) ==> c in q.whereConds && OneTable(c)
    requires AddsConstants(filters0, joins, filters)
    ensures OneTabled(filters) && FromWhere(q, filters) && OnKnownColumns(q, filters, joins)
  {
    forall t | Get(filters, t) != [] ensures q.whereConds != [] {
      var c := Get(filters, t)[0];
      assert c in Get(filters, t);
      if c !in Get(filters0, t) {
        var s, d :| d in Get(filters0, s) && d.ColVal? && d.op == P.EQ && d.val == c.val;
        assert d in q.whereConds;
      } else {
        assert c in q.whereConds;
      }
    }
  }

  // ---------------------------------------------------------------- execution

  ghost predicate DistinctNames(tables: seq<string>) {
    forall i, j :: 0 <= i < j < |tables| ==> tables[i] != tables[j]
  }

  /** A sequence of RIDs for each table that lists all its rows. */
  ghost predicate Ordered(cx: Ctx, order: map<string, seq<Rid>>) {
    forall t :: t in cx.tables ==> t in order && NoRepeats(order[t]) && forall rid :: rid in Rows(cx, t) ==>
        rid in order[t]
  }

  /** An index over one column, and the number of values the column can have. */
  datatype Index = Index(ih: IxIndexHandle, radix: nat)

  ghost function Handles(indexes: map<TabCol, Index>): set<object> {
    set c | c in indexes :: indexes[c].ih
  }

  ghost predicate IndexesOk(indexes: map<TabCol, Index>)
    reads Handles(indexes)
  {
    forall c {:trigger indexes[c]} :: c in indexes ==> indexes[c].ih.Valid() && indexes[c].radix > 0
  }

  /** A probe of a statement and the indexed column it is for. */
  datatype ProbeLog = ProbeLog(col: TabCol, probed: Probed)

  /** Runs of the protocol account for all probes of the statement. */
  ghost predicate AllAccounted(cx: Ctx, indexes: map<TabCol, Index>, log: seq<ProbeLog>) {
    forall i {:trigger log[i]} :: 0 <= i < |log| ==>
      log[i].col in indexes && Accounted(cx, log[i].col, indexes[log[i].col].radix, log[i].probed)
  }

  ghost function Logged(col: TabCol, probes: seq<Probed>): seq<ProbeLog> {
    seq(|probes|, i requires 0 <= i < |probes| => ProbeLog(col, probes[i]))
  }

  /** A condition between two different ones of the first `n` tables. */
  predicate Between(c: Cond, tables: seq<string>, n: nat)
    requires n <= |tables|
  {
    c.ColCol? && c.lhs.tab != c.rhs.tab && c.lhs.tab in tables[..n] && c.rhs.tab in tables[..n]
  }

  ghost predicate PassesFilter(cx: Ctx, filters: Filters, t: string, rid: Rid) {
    rid in Rows(cx, t) && AllHold(RowEnv(cx, t, rid), Get(filters, t))
  }

  /** A tuple of the first `n` tables that passes the filters and every join condition between them. */
  ghost predicate Qualifies(cx: Ctx, n: nat, filters: Filters, joins: seq<Cond>, t: Tuple)
    requires n <= |cx.tables|
  {
    && |t| == n
    && (forall i :: 0 <= i < n ==> PassesFilter(cx, filters, cx.tables[i], t[i]))
    && (forall c :: c in joins && Between(c, cx.tables, n) ==> Holds(EnvOf(cx, t), c))
  }

  ghost predicate Sound(cx: Ctx, n: nat, filters: Filters, joins: seq<Cond>, out: seq<Tuple>)
    requires n <= |cx.tables|
  {
    forall t :: t in out ==> Qualifies(cx, n, filters, joins, t)
  }

  /** `out` lists the qualifying tuples, each once. */
  ghost predicate Computes(cx: Ctx, n: nat, filters: Filters, joins: seq<Cond>, out: seq<Tuple>)
    requires n <= |cx.tables|
  {
    NoRepeats(out) && forall t :: t in out <==> Qualifies(cx, n, filters, joins, t)
  }

  lemma PositionOf(tables: seq<string>, i: nat)
    requires DistinctNames(tables) && i < |tables|
    ensures IndexOf(tables, tables[i]) == i
  {
  }

  /** A condition on the first `n` tables sees only their rows. */
  lemma HoldsOnPrefix(cx: Ctx, n: nat, t: Tuple, c: Cond)
    requires DistinctNames(cx.tables) && n <= |cx.tables| && n <= |t| && Between(c, cx.tables, n)
    ensures Holds(EnvOf(cx, t[..n]), c) <==> Holds(EnvOf(cx, t), c)
  {
    ValOnPrefix(cx, n, t, c.lhs);
    ValOnPrefix(cx, n, t, c.rhs);
  }

  lemma ValOnPrefix(cx: Ctx, n: nat, t: Tuple, c: TabCol)
    requires DistinctNames(cx.tables) && n <= |cx.tables| && n <= |t| && c.tab in cx.tables[..n]
    ensures Val(cx, t[..n], c) == Val(cx, t, c)
  {
    var i :| 0 <= i < n && cx.tables[i] == c.tab;
    PositionOf(cx.tables, i);
  }

  /** Every join condition is applied at exactly one level: that of the later of its two tables. */
  lemma OneLevel(tables: seq<string>, c: Cond, n: nat)
    requires DistinctNames(tables) && n < |tables| && c.ColCol? && c.lhs.tab != c.rhs.tab
    ensures Connects(c, tables[..n], tables[n]) <==> Between(c, tables, n + 1) && !Between(c, tables, n)
    ensures Between(c, tables, |tables|) ==>
              var a, b := IndexOf(tables, c.lhs.tab), IndexOf(tables, c.rhs.tab);
              Connects(c, tables[..n], tables[n]) <==> n == if a < b then b else a
  {
    assert tables[..n + 1] == tables[..n] + [tables[n]];
    assert tables[n] !in tables[..n];
    var a, b := IndexOf(tables, c.lhs.tab), IndexOf(tables, c.rhs.tab);
    InPrefix(tables, c.lhs.tab, n);
    InPrefix(tables, c.rhs.tab, n);
    assert a == n ==> tables[n] == c.lhs.tab;
    if n < |tables| { PositionOf(tables, n); }
  }

  lemma InPrefix(tables: seq<string>, x: string, n: nat)
    requires n <= |tables|
    ensures x in tables[..n] <==> IndexOf(tables, x) < n
  {
    var k := IndexOf(tables, x);
    if k < n { assert tables[..n][k] == x; }
    if x in tables[..n] {
      var i :| 0 <= i < n && tables[i] == x;
    }
  }

  /** One more level: the pairs of qualifying left tuples and filtered rows that meet the level's
      conditions are the qualifying tuples. */
  lemma Extend(cx: Ctx, n: nat, filters: Filters, joins: seq<Cond>, conds: seq<Cond>, t: Tuple)
    requires DistinctNames(cx.tables) && n < |cx.tables| && LevelOk(conds, joins, cx.tables[..n], cx.tables[n])
    ensures Qualifies(cx, n + 1, filters, joins, t) <==>
              && t != [] && Qualifies(cx, n, filters, joins, Init(t))
                  && PassesFilter(cx, filters, cx.tables[n], Last(t))
              && AllHold(EnvOf(cx, t), conds)
  {
    if |t| == n + 1 {
      assert Init(t) == t[..n];
      ExtendJoins(cx, n, joins, conds, t);
    }
  }

  lemma ExtendJoins(cx: Ctx, n: nat, joins: seq<Cond>, conds: seq<Cond>, t: Tuple)
    requires DistinctNames(cx.tables) && n < |cx.tables| && |t| == n + 1
             && LevelOk(conds, joins, cx.tables[..n], cx.tables[n])
    ensures (forall c :: c in joins && Between(c, cx.tables, n + 1) ==> Holds(EnvOf(cx, t), c)) <==>
              && (forall c :: c in joins && Between(c, cx.tables, n) ==> Holds(EnvOf(cx, t[..n]), c))
              && AllHold(EnvOf(cx, t), conds)
  {
    ExtendConds(cx, n, joins, conds, t);
    assert cx.tables[..n + 1] == cx.tables[..n] + [cx.tables[n]];
    forall c | c in joins && Between(c, cx.tables, n)
      ensures Between(c, cx.tables, n + 1) && (Holds(EnvOf(cx, t[..n]), c) <==> Holds(EnvOf(cx, t), c))
    {
      HoldsOnPrefix(cx, n, t, c);
    }
  }

  lemma ExtendConds(cx: Ctx, n: nat, joins: seq<Cond>, conds: seq<Cond>, t: Tuple)
    requires DistinctNames(cx.tables) && n < |cx.tables| && LevelOk(conds, joins, cx.tables[..n], cx.tables[n])
    ensures AllHold(EnvOf(cx, t), conds) <==>
              forall c :: c in joins && Between(c, cx.tables, n + 1) && !Between(c, cx.tables, n) ==>
                  Holds(EnvOf(cx, t), c)
  {
    assert cx.tables[n] !in cx.tables[..n];
    forall c | c in conds ensures c in joins && Between(c, cx.tables, n + 1) && !Between(c, cx.tables, n) {
      OneLevel(cx.tables, c, n);
    }
    forall c | c in joins && Between(c, cx.tables, n + 1) && !Between(c, cx.tables, n) ensures c in conds {
      OneLevel(cx.tables, c, n);
    }
    if forall c :: c in joins && Between(c, cx.tables, n + 1) && !Between(c, cx.tables, n) ==> Holds(EnvOf(cx, t), c) {
      forall i | 0 <= i < |conds| ensures Holds(EnvOf(cx, t), conds[i]) { assert conds[i] in conds; }
    }
  }

  /** A row that meets the conditions of the level has the value its left tuple is probed with. */
  lemma ProbeFinds(cx: Ctx, n: nat, conds: seq<Cond>, outer: TabCol, inner: TabCol, t: Tuple)
    requires DistinctNames(cx.tables) && n < |cx.tables| && |t| == n + 1
    requires ProbesBy(conds, cx.tables[..n], cx.tables[n], outer, inner)
    requires Last(t) in Rows(cx, cx.tables[n]) && AllHold(EnvOf(cx, t), conds)
    ensures inner.tab == cx.tables[n] && Cell(cx, inner.tab, Last(t), inner.col) == Val(cx, Init(t), outer)
  {
    assert Init(t) == t[..n];
    ValOnPrefix(cx, n, t, outer);
    PositionOf(cx.tables, n);
    assert Val(cx, t, inner) == Val(cx, t, outer) by {
      var c := if ColCol(inner, P.EQ, outer) in conds then ColCol(inner, P.EQ, outer) else ColCol(outer, P.EQ, inner);
      var i :| 0 <= i < |conds| && conds[i] == c;
      assert Holds(EnvOf(cx, t), conds[i]);
    }
  }

  /** A level of nested loops: sound if its left input is, and exact if that is. */
  lemma LoopLevel(cx: Ctx, n: nat, filters: Filters, joins: seq<Cond>, conds: seq<Cond>, left: seq<Tuple>,
                  right: seq<Rid>, out: seq<Tuple>)
    requires DistinctNames(cx.tables) && n < |cx.tables| && LevelOk(conds, joins, cx.tables[..n], cx.tables[n])
    requires Sound(cx, n, filters, joins, left)
    requires NoRepeats(right) && forall rid :: rid in right <==> PassesFilter(cx, filters, cx.tables[n], rid)
    requires NoRepeats(left) && NoRepeats(right) ==> NoRepeats(out)
    requires forall t :: t in out <==> Pairs(t, left, right) && AllHold(EnvOf(cx, t), conds)
    ensures Sound(cx, n + 1, filters, joins, out)
    ensures Computes(cx, n, filters, joins, left) ==> Computes(cx, n + 1, filters, joins, out)
  {
    forall t ensures t in out ==> Qualifies(cx, n + 1, filters, joins, t)
             ensures Computes(cx, n, filters, joins, left) && Qualifies(cx, n + 1, filters, joins, t) ==> t in out
    {
      Extend(cx, n, filters, joins, conds, t);
    }
  }

  /** A level of index probes: sound whatever the probes found, and exact if they are complete. */
  lemma IndexLevel(cx: Ctx, n: nat, filters: Filters, joins: seq<Cond>, conds: seq<Cond>, outer: TabCol, inner: TabCol,
                   left: seq<Tuple>, probes: seq<Probed>, out: seq<Tuple>)
    requires DistinctNames(cx.tables) && n < |cx.tables| && LevelOk(conds, joins, cx.tables[..n], cx.tables[n])
    requires ProbesBy(conds, cx.tables[..n], cx.tables[n], outer, inner) && Sound(cx, n, filters, joins, left)
    requires |probes| == |left| && forall i {:trigger probes[i]} :: 0 <= i < |probes| ==>
               probes[i].val == Val(cx, left[i], outer)
    requires AllOnce(left, probes) ==> NoRepeats(out)
    requires forall t :: t in out <==> Delivers(cx, left, cx.tables[n], Get(filters, cx.tables[n]), conds, probes, t)
    ensures Sound(cx, n + 1, filters, joins, out)
    ensures Computes(cx, n, filters, joins, left) && AllComplete(cx, inner, probes) ==>
              Computes(cx, n + 1, filters, joins, out)
  {
    forall t ensures t in out ==> Qualifies(cx, n + 1, filters, joins, t) {
      if t in out {
        var i :| 0 <= i < |left| && t != [] && left[i] == Init(t) && Last(t) in probes[i].found
                 && Match(cx, cx.tables[n], Get(filters, cx.tables[n]), conds, left[i], Last(t));
        assert t == left[i] + [Last(t)] && left[i] in left;
        Extend(cx, n, filters, joins, conds, t);
      }
    }
    if Computes(cx, n, filters, joins, left) && AllComplete(cx, inner, probes) {
      forall t | Qualifies(cx, n + 1, filters, joins, t) ensures t in out {
        IndexMisses(cx, n, filters, joins, conds, outer, inner, left, probes, t);
      }
    }
  }

  ghost predicate AllComplete(cx: Ctx, inner: TabCol, probes: seq<Probed>) {
    forall i {:trigger probes[i]} :: 0 <= i < |probes| ==> Complete(cx, inner, probes[i])
  }

  /** Complete probes miss no qualifying tuple. */
  lemma IndexMisses(cx: Ctx, n: nat, filters: Filters, joins: seq<Cond>, conds: seq<Cond>, outer: TabCol, inner: TabCol,
                    left: seq<Tuple>, probes: seq<Probed>, t: Tuple)
    requires DistinctNames(cx.tables) && n < |cx.tables| && LevelOk(conds, joins, cx.tables[..n], cx.tables[n])
    requires ProbesBy(conds, cx.tables[..n], cx.tables[n], outer, inner) && Computes(cx, n, filters, joins, left)
    requires |probes| == |left| && forall i {:trigger probes[i]} :: 0 <= i < |probes| ==>
               probes[i].val == Val(cx, left[i], outer)
    requires AllComplete(cx, inner, probes) && Qualifies(cx, n + 1, filters, joins, t)
    ensures Delivers(cx, left, cx.tables[n], Get(filters, cx.tables[n]), conds, probes, t)
  {
    Extend(cx, n, filters, joins, conds, t);
    ProbeFinds(cx, n, conds, outer, inner, t);
    var i :| 0 <= i < |left| && left[i] == Init(t);
    assert t == left[i] + [Last(t)];
    assert Complete(cx, inner, probes[i]);
    assert Last(t) in probes[i].found && Match(cx, cx.tables[n], Get(filters, cx.tables[n]), conds, left[i], Last(t));
  }

  /** Running a plan. Every tuple it delivers qualifies; and if runs of the protocol account for its probes,
      it delivers all that do, each once. */
  method Execute(plan: Plan, cx: Ctx, order: map<string, seq<Rid>>, indexes: map<TabCol, Index>, others: map<string,
                 seq<Probing>>,
                 ghost n: nat, ghost filters: Filters, ghost joins: seq<Cond>)
                     returns (out: seq<Tuple>, ghost log: seq<ProbeLog>)
    requires n <= |cx.tables| && DistinctNames(cx.tables) && PlanFor(plan, cx.tables[..n], filters, joins, indexes.Keys)
    requires Ordered(cx, order) && IndexesOk(indexes)
    modifies Handles(indexes)
    ensures IndexesOk(indexes) && Sound(cx, n, filters, joins, out) && (indexes == map[] ==> log == [])
    ensures AllAccounted(cx, indexes, log) ==> Computes(cx, n, filters, joins, out)
    decreases plan, 1
  {
    match plan {
      case Scan(_, _) =>
        log := [];
        out := RunScan(plan, cx, order, n, filters, joins, indexes.Keys);
      case NestLoop(_, _, _) =>
        out, log := ExecuteLoop(plan, cx, order, indexes, others, n, filters, joins);
      case IndexNestLoop(_, _, _, _, _, _) =>
        out, log := ExecuteIndexLoop(plan, cx, order, indexes, others, n, filters, joins);
    }
  }

  method ExecuteLoop(plan: Plan, cx: Ctx, order: map<string, seq<Rid>>, indexes: map<TabCol, Index>, others: map<string,
                     seq<Probing>>,
                     ghost n: nat, ghost filters: Filters, ghost joins: seq<Cond>)
                         returns (out: seq<Tuple>, ghost log: seq<ProbeLog>)
    requires n <= |cx.tables| && DistinctNames(cx.tables) && PlanFor(plan, cx.tables[..n], filters, joins, indexes.Keys)
             && plan.NestLoop?
    requires Ordered(cx, order) && IndexesOk(indexes)
    modifies Handles(indexes)
    ensures IndexesOk(indexes) && Sound(cx, n, filters, joins, out) && (indexes == map[] ==> log == [])
    ensures AllAccounted(cx, indexes, log) ==> Computes(cx, n, filters, joins, out)
    decreases plan, 0
  {
    LeftPlan(plan, plan.left, cx, n, filters, joins, indexes.Keys);
    var l;
    l, log := Execute(plan.left, cx, order, indexes, others, n - 1, filters, joins);
    out := RunLoop(plan, cx, l, order, n, filters, joins, indexes.Keys);
  }

  method ExecuteIndexLoop(plan: Plan, cx: Ctx, order: map<string, seq<Rid>>, indexes: map<TabCol, Index>,
                          others: map<string, seq<Probing>>,
                          ghost n: nat, ghost filters: Filters, ghost joins: seq<Cond>)
                              returns (out: seq<Tuple>, ghost log: seq<ProbeLog>)
    requires n <= |cx.tables| && DistinctNames(cx.tables) && PlanFor(plan, cx.tables[..n], filters, joins, indexes.Keys)
             && plan.IndexNestLoop?
    requires Ordered(cx, order) && IndexesOk(indexes)
    modifies Handles(indexes)
    ensures IndexesOk(indexes) && Sound(cx, n, filters, joins, out) && plan.inner in indexes
    ensures AllAccounted(cx, indexes, log) ==> Computes(cx, n, filters, joins, out)
    decreases plan, 0
  {
    LeftPlan(plan, plan.left, cx, n, filters, joins, indexes.Keys);
    var l;
    ghost var probes;
    l, log := Execute(plan.left, cx, order, indexes, others, n - 1, filters, joins);
    out, probes := RunIndexLoop(plan, cx, l, indexes, others, n, filters, joins);
    BothAccounted(cx, indexes, log, plan.inner, probes);
    log := log + Logged(plan.inner, probes);
  }

  lemma BothAccounted(cx: Ctx, indexes: map<TabCol, Index>, log: seq<ProbeLog>, col: TabCol, probes: seq<Probed>)
    requires col in indexes
    ensures AllAccounted(cx, indexes, log + Logged(col, probes)) ==>
              && AllAccounted(cx, indexes, log)
              && ProbesAccounted(cx, col, indexes[col].radix, probes)
  {
    var both := log + Logged(col, probes);
    if AllAccounted(cx, indexes, both) {
      forall i | 0 <= i < |log|
        ensures log[i].col in indexes && Accounted(cx, log[i].col, indexes[log[i].col].radix, log[i].probed)
      {
        assert both[i] == log[i];
      }
      forall i | 0 <= i < |probes| ensures Accounted(cx, col, indexes[col].radix, probes[i]) {
        assert both[|log| + i] == ProbeLog(col, probes[i]);
      }
    }
  }

  lemma LeftPlan(plan: Plan, left: Plan, cx: Ctx, n: nat, filters: Filters, joins: seq<Cond>, indexed: set<TabCol>)
    requires n <= |cx.tables| && PlanFor(plan, cx.tables[..n], filters, joins, indexed) && !plan.Scan?
             && left == plan.left
    ensures n > 1 && PlanFor(left, cx.tables[..n - 1], filters, joins, indexed)
    ensures LevelOk(plan.conds, joins, cx.tables[..n - 1], cx.tables[n - 1])
    ensures plan.NestLoop? ==> plan.right == Scan(cx.tables[n - 1], Get(filters, cx.tables[n - 1]))
    ensures plan.IndexNestLoop? ==>
              && plan.table == cx.tables[n - 1] && plan.filter == Get(filters, plan.table)
              && ProbesBy(plan.conds, cx.tables[..n - 1], plan.table, plan.outer, plan.inner) && plan.inner in indexed
  {
    assert cx.tables[..n][..n - 1] == cx.tables[..n - 1];
  }

  method RunLoop(plan: Plan, cx: Ctx, left: seq<Tuple>, order: map<string, seq<Rid>>,
                 ghost n: nat, ghost filters: Filters, ghost joins: seq<Cond>, ghost indexed: set<TabCol>)
                     returns (out: seq<Tuple>)
    requires 0 < n <= |cx.tables| && DistinctNames(cx.tables) && Ordered(cx, order)
    requires plan.NestLoop? && PlanFor(plan, cx.tables[..n], filters, joins, indexed)
             && Sound(cx, n - 1, filters, joins, left)
    ensures Sound(cx, n, filters, joins, out)
    ensures Computes(cx, n - 1, filters, joins, left) ==> Computes(cx, n, filters, joins, out)
  {
    LeftPlan(plan, plan.left, cx, n, filters, joins, indexed);
    assert cx.tables[n - 1] in cx.tables;
    var rids := ScanTable(cx, plan.right.table, order[plan.right.table], plan.right.filter);
    out := DrainNestedLoop(cx, left, rids, plan.conds);
    LoopLevel(cx, n - 1, filters, joins, plan.conds, left, rids, out);
  }

  method RunIndexLoop(plan: Plan, cx: Ctx, left: seq<Tuple>, indexes: map<TabCol, Index>, others: map<string,
                      seq<Probing>>,
                      ghost n: nat, ghost filters: Filters, ghost joins: seq<Cond>)
                          returns (out: seq<Tuple>, ghost probes: seq<Probed>)
    requires 0 < n <= |cx.tables| && DistinctNames(cx.tables) && IndexesOk(indexes)
    requires plan.IndexNestLoop? && PlanFor(plan, cx.tables[..n], filters, joins, indexes.Keys)
             && Sound(cx, n - 1, filters, joins, left)
    modifies Handles(indexes)
    ensures IndexesOk(indexes) && plan.inner in indexes && Sound(cx, n, filters, joins, out)
    ensures Computes(cx, n - 1, filters, joins, left)
            && ProbesAccounted(cx, plan.inner, indexes[plan.inner].radix, probes) ==>
              Computes(cx, n, filters, joins, out)
  {
    LeftPlan(plan, plan.left, cx, n, filters, joins, indexes.Keys);
    var script := if plan.table in others then others[plan.table] else [];
    out, probes := ProbeJoin(cx, left, plan.table, plan.filter, plan.conds, plan.outer, plan.inner, indexes, script);
    AccountedIsComplete(cx, plan.outer, plan.inner, indexes[plan.inner].radix, left, probes);
    IndexLevel(cx, n - 1, filters, joins, plan.conds, plan.outer, plan.inner, left, probes, out);
  }

  method ProbeJoin(cx: Ctx, left: seq<Tuple>, table: string, filter: seq<Cond>, conds: seq<Cond>, outer: TabCol,
                   inner: TabCol,
                   indexes: map<TabCol, Index>, script: seq<Probing>)
                       returns (out: seq<Tuple>, ghost probes: seq<Probed>)
    requires inner in indexes && IndexesOk(indexes)
    modifies Handles(indexes)
    ensures IndexesOk(indexes)
            && JoinedBy(cx, left, table, filter, conds, outer, inner, indexes[inner].radix, probes, out)
  {
    var index := indexes[inner];
    out, probes := DrainIndexJoin(cx, left, table, filter, conds, outer, inner, index.ih, index.radix, script);
  }

  ghost predicate ProbesAccounted(cx: Ctx, inner: TabCol, radix: nat, probes: seq<Probed>) {
    forall i {:trigger probes[i]} :: 0 <= i < |probes| ==> Accounted(cx, inner, radix, probes[i])
  }

  lemma AccountedIsComplete(cx: Ctx, outer: TabCol, inner: TabCol, radix: nat, left: seq<Tuple>, probes: seq<Probed>)
    requires |probes| == |left|
    requires forall i {:trigger probes[i]} :: 0 <= i < |probes| ==>
               ProbedFor(cx, outer, inner, radix, left[i], probes[i])
    ensures forall i {:trigger probes[i]} :: 0 <= i < |probes| ==> probes[i].val == Val(cx, left[i], outer)
    ensures ProbesAccounted(cx, inner, radix, probes) ==> AllComplete(cx, inner, probes)
  {
  }

  method RunScan(plan: Plan, cx: Ctx, order: map<string, seq<Rid>>,
                 ghost n: nat, ghost filters: Filters, ghost joins: seq<Cond>, ghost indexed: set<TabCol>)
                     returns (out: seq<Tuple>)
    requires n <= |cx.tables| && Ordered(cx, order) && plan.Scan?
             && PlanFor(plan, cx.tables[..n], filters, joins, indexed)
    ensures Computes(cx, n, filters, joins, out)
  {
    var table := plan.table;
    assert n == 1 && table == cx.tables[0] && table in cx.tables;
    var rids := ScanTable(cx, table, order[table], plan.filter);
    out := seq(|rids|, i requires 0 <= i < |rids| => [rids[i]]);
    forall i, j | 0 <= i < j < |out| ensures out[i] != out[j] { assert out[i][0] != out[j][0]; }
    assert cx.tables[..1] == [table];
    forall t ensures t in out <==> Qualifies(cx, 1, filters, joins, t) {
      if Qualifies(cx, 1, filters, joins, t) {
        assert PassesFilter(cx, filters, cx.tables[0], t[0]);
        var i :| 0 <= i < |rids| && rids[i] == t[0];
        assert out[i] == t;
      }
      if t in out {
        var i :| 0 <= i < |out| && out[i] == t;
        assert rids[i] in rids;
      }
    }
  }

  // ---------------------------------------------------------------- the plan answers the query

  /** The tables a condition names are in FROM, as the analyzer checks. */
  ghost predicate Named(q: Query) {
    forall c :: c in q.whereConds || c in q.onConds ==> c.lhs.tab in q.tables && (c.ColCol? ==> c.rhs.tab in q.tables)
  }

  ghost predicate InProduct(cx: Ctx, t: Tuple) {
    |t| == |cx.tables| && forall i :: 0 <= i < |t| ==> t[i] in Rows(cx, cx.tables[i])
  }

  ghost predicate OnHolds(q: Query, env: Env) {
    forall c :: c in q.onConds ==> Holds(env, c)
  }

  /** The rows of the product that meet every condition of WHERE and ON. */
  ghost predicate Answers(q: Query, cx: Ctx, t: Tuple) {
    InProduct(cx, t) && (forall c :: c in q.whereConds ==> Holds(EnvOf(cx, t), c)) && OnHolds(q, EnvOf(cx, t))
  }

  /** All of WHERE and the cross-table conditions of ON. */
  ghost predicate Meets(q: Query, env: Env) {
    forall c :: c in q.whereConds || (c in q.onConds && !OneTable(c)) ==> Holds(env, c)
  }

  /** What the plan checks of a tuple of the product. */
  ghost predicate Delivered(q: Query, meta: map<TabCol, ColMeta>, cx: Ctx, t: Tuple) {
    InProduct(cx, t) && Meets(q, EnvOf(cx, t)) && FiltersHold(EnvOf(cx, t), ScanFilters(q, meta))
  }

  lemma FilterOnTuple(cx: Ctx, t: Tuple, i: nat, c: Cond)
    requires DistinctNames(cx.tables) && i < |t| == |cx.tables| && OneTable(c) && c.lhs.tab == cx.tables[i]
    ensures Holds(EnvOf(cx, t), c) <==> Holds(RowEnv(cx, cx.tables[i], t[i]), c)
  {
    PositionOf(cx.tables, i);
  }

  /** The scans together check the filters of all tables. */
  lemma FiltersOnTuple(cx: Ctx, filters: Filters, t: Tuple)
    requires DistinctNames(cx.tables) && InProduct(cx, t) && Filed(filters) && OneTabled(filters)
    requires forall name :: Get(filters, name) != [] ==> name in cx.tables
    ensures (forall i :: 0 <= i < |t| ==> PassesFilter(cx, filters, cx.tables[i], t[i])) <==>
              FiltersHold(EnvOf(cx, t), filters)
  {
    var env := EnvOf(cx, t);
    forall i, k | 0 <= i < |t| && 0 <= k < |Get(filters, cx.tables[i])|
      ensures Holds(env, Get(filters, cx.tables[i])[k]) <==>
                Holds(RowEnv(cx, cx.tables[i], t[i]), Get(filters, cx.tables[i])[k])
    {
      assert Get(filters, cx.tables[i])[k] in Get(filters, cx.tables[i]);
      FilterOnTuple(cx, t, i, Get(filters, cx.tables[i])[k]);
    }
    if FiltersHold(env, filters) {
      forall i | 0 <= i < |t| ensures PassesFilter(cx, filters, cx.tables[i], t[i]) {
        assert AllHold(env, Get(filters, cx.tables[i]));
      }
    }
    if forall i :: 0 <= i < |t| ==> PassesFilter(cx, filters, cx.tables[i], t[i]) {
      forall name ensures AllHold(env, Get(filters, name)) {
        if Get(filters, name) != [] {
          var i :| 0 <= i < |t| && cx.tables[i] == name;
          assert PassesFilter(cx, filters, cx.tables[i], t[i]);
        }
      }
    }
  }

  lemma FiltersAreNamed(q: Query, filters: Filters, joins: seq<Cond>, name: string)
    requires Named(q) && Sorted(q, filters, joins) && Get(filters, name) != []
    ensures name in q.tables
  {
    var c := Get(filters, name)[0];
    assert c in Get(filters, name) && c.lhs.tab == name;
    if c !in q.whereConds {
      var i :| 0 <= i < |joins| && joins[i].ColCol? && (joins[i].lhs == c.lhs || joins[i].rhs == c.lhs);
      assert joins[i] in joins;
    }
  }

  /** The tuples the plan delivers are those of the product that meet WHERE, the cross-table
      conditions of ON and the carried constants. */
  lemma QualifyingIsDelivered(q: Query, meta: map<TabCol, ColMeta>, cx: Ctx, t: Tuple)
    requires cx.tables == q.tables && DistinctNames(q.tables) && Named(q)
    ensures Qualifies(cx, |q.tables|, ScanFilters(q, meta), JoinConds(q), t) <==> Delivered(q, meta, cx, t)
  {
    var filters, joins := ScanFilters(q, meta), JoinConds(q);
    PlannerSorts(q, meta);
    forall name | Get(filters, name) != [] ensures name in cx.tables { FiltersAreNamed(q, filters, joins, name); }
    if InProduct(cx, t) {
      FiltersOnTuple(cx, filters, t);
      if FiltersHold(EnvOf(cx, t), filters) { JoinsOnTuple(q, cx, filters, joins, t); }
    } else if |t| == |q.tables| {
      var i :| 0 <= i < |t| && t[i] !in Rows(cx, cx.tables[i]);
      assert !PassesFilter(cx, filters, cx.tables[i], t[i]);
    }
  }

  lemma JoinsOnTuple(q: Query, cx: Ctx, filters: Filters, joins: seq<Cond>, t: Tuple)
    requires cx.tables == q.tables && Named(q) && Sorted(q, filters, joins) && FiltersHold(EnvOf(cx, t), filters)
    ensures (forall c :: c in joins && Between(c, cx.tables, |q.tables|) ==> Holds(EnvOf(cx, t), c)) <==>
              Meets(q, EnvOf(cx, t))
  {
    var env := EnvOf(cx, t);
    assert q.tables[..|q.tables|] == q.tables;
    forall c | c in q.whereConds && OneTable(c) ensures Holds(env, c) {
      assert c in Get(filters, c.lhs.tab) && AllHold(env, Get(filters, c.lhs.tab));
    }
    if Meets(q, env) {
      forall c | c in joins && Between(c, cx.tables, |q.tables|) ensures Holds(env, c) { }
    }
    if forall c :: c in joins && Between(c, cx.tables, |q.tables|) ==> Holds(env, c) {
      forall c | c in q.whereConds || (c in q.onConds && !OneTable(c)) ensures Holds(env, c) {
        if !OneTable(c) { assert c in joins && Between(c, cx.tables, |q.tables|); }
      }
    }
  }

  /** Planning and running a SELECT. Every tuple delivered is one of the Cartesian product that meets WHERE,
      the cross-table conditions of ON and the carried constants. If runs of the protocol account for the
      probes of its index joins, each such tuple is delivered once, whichever joins go through an index.
      The carried constants only matter when ON equates two columns of one table, and the result is the
      answer to the query whenever the rest of ON follows from what is checked. */
  method Select(q: Query, meta: map<TabCol, ColMeta>, indexes: map<TabCol, Index>, cx: Ctx, order: map<string,
                seq<Rid>>,
                others: map<string, seq<Probing>>) returns (r: Option<seq<Tuple>>, ghost log: seq<ProbeLog>)
    requires cx.tables == q.tables && DistinctNames(q.tables) && Named(q) && Ordered(cx, order) && IndexesOk(indexes)
    modifies Handles(indexes)
    ensures IndexesOk(indexes) && (r.None? <==> q.tables == []) && (indexes == map[] ==> log == [])
    ensures r.Some? ==> forall t :: t in r.value ==> Delivered(q, meta, cx, t)
    ensures r.Some? && AllAccounted(cx, indexes, log) ==> NoRepeats(r.value) && forall t :: t in r.value <==>
              Delivered(q, meta, cx, t)
    ensures r.Some? && AllAccounted(cx, indexes, log) && NoLocalEquality(q) ==>
              forall t :: t in r.value <==> InProduct(cx, t) && Meets(q, EnvOf(cx, t))
    ensures r.Some? && AllAccounted(cx, indexes, log) && OnFollows(q, meta) ==> forall t :: t in r.value <==>
              Answers(q, cx, t)
  {
    var plan := MakeLeftDeepJoinPlan(q, meta, indexes.Keys);
    if plan.None? {
      return None, [];
    }
    assert cx.tables[..|q.tables|] == q.tables;
    var out;
    out, log := Execute(plan.value, cx, order, indexes, others, |q.tables|, ScanFilters(q, meta), JoinConds(q));
    WhatIsDelivered(q, meta, cx);
    r := Some(out);
  }

  lemma WhatIsDelivered(q: Query, meta: map<TabCol, ColMeta>, cx: Ctx)
    requires cx.tables == q.tables && DistinctNames(q.tables) && Named(q)
    ensures forall t :: Qualifies(cx, |q.tables|, ScanFilters(q, meta), JoinConds(q), t) <==> Delivered(q, meta, cx, t)
    ensures NoLocalEquality(q) ==> forall t :: Delivered(q, meta, cx, t) <==> InProduct(cx, t) && Meets(q, EnvOf(cx, t))
    ensures OnFollows(q, meta) ==> forall t :: Delivered(q, meta, cx, t) <==> Answers(q, cx, t)
  {
    forall t ensures Qualifies(cx, |q.tables|, ScanFilters(q, meta), JoinConds(q), t) <==> Delivered(q, meta, cx, t) {
      QualifyingIsDelivered(q, meta, cx, t);
    }
    if NoLocalEquality(q) {
      forall t | Meets(q, EnvOf(cx, t)) ensures FiltersHold(EnvOf(cx, t), ScanFilters(q, meta)) {
        ConstantsFollow(q, meta, EnvOf(cx, t));
      }
    }
    if OnFollows(q, meta) {
      forall t ensures Delivered(q, meta, cx, t) <==> Answers(q, cx, t) { DeliversAnswers(q, meta, cx, t); }
    }
  }

  // ---------------------------------------------------------------- when the plan answers the query

  /** No ON condition equates two columns of the same table. */
  ghost predicate NoLocalEquality(q: Query) {
    forall c :: c in q.onConds && IsEqualityJoin(c) ==> !OneTable(c)
  }

  /** ON follows from what the plan checks. */
  ghost predicate OnFollows(q: Query, meta: map<TabCol, ColMeta>) {
    forall env: Env {:trigger Meets(q, env)} :: Meets(q, env) && FiltersHold(env, ScanFilters(q, meta)) ==>
        OnHolds(q, env)
  }

  /** Whatever the tables hold, the plan delivers the answer to the query. */
  ghost predicate Exact(q: Query, meta: map<TabCol, ColMeta>) {
    forall cx: Ctx, t: Tuple {:trigger Delivered(q, meta, cx, t)} ::
      cx.tables == q.tables ==> (Delivered(q, meta, cx, t) <==> Answers(q, cx, t))
  }

  lemma EqualitiesFollow(q: Query, env: Env)
    requires Meets(q, env) && (NoLocalEquality(q) || OnHolds(q, env))
    ensures EqualitiesHold(env, JoinConds(q))
  {
    var joins := JoinConds(q);
    Classified(q.whereConds);
    forall i | 0 <= i < |joins| && IsEqualityJoin(joins[i]) ensures Holds(env, joins[i]) {
      assert joins[i] in joins;
    }
  }

  lemma ConstantsFollow(q: Query, meta: map<TabCol, ColMeta>, env: Env)
    requires Meets(q, env) && (NoLocalEquality(q) || OnHolds(q, env))
    ensures FiltersHold(env, ScanFilters(q, meta))
  {
    PlannerSorts(q, meta);
    EqualitiesFollow(q, env);
  }

  lemma DeliversAnswers(q: Query, meta: map<TabCol, ColMeta>, cx: Ctx, t: Tuple)
    requires OnFollows(q, meta)
    ensures Delivered(q, meta, cx, t) <==> Answers(q, cx, t)
  {
    if Answers(q, cx, t) {
      assert Meets(q, EnvOf(cx, t));
      ConstantsFollow(q, meta, EnvOf(cx, t));
    }
  }

  ghost function Columns(conds: seq<Cond>): set<TabCol> {
    (set i | 0 <= i < |conds| :: conds[i].lhs) + (set i | 0 <= i < |conds| && conds[i].ColCol? :: conds[i].rhs)
  }

  ghost function RowOf(cols: set<TabCol>, name: string, env: Env): Row {
    map x | x in cols && x.tab == name :: x.col := env(x)
  }

  const ONLY := IxModel.Rid(1, 0)

  /** One row in each table, with the values of `env` in the columns the query names. */
  ghost function Witness(q: Query, env: Env): Ctx {
    Ctx(q.tables, map name | name in q.tables :: map[ONLY := RowOf(Columns(q.whereConds + q.onConds), name, env)])
  }

  ghost function Only(q: Query): Tuple {
    seq(|q.tables|, _ => ONLY)
  }

  lemma WitnessVal(q: Query, env: Env, x: TabCol)
    requires x in Columns(q.whereConds + q.onConds) && x.tab in q.tables
    ensures Val(Witness(q, env), Only(q), x) == env(x)
  {
    InPrefix(q.tables, x.tab, |q.tables|);
    assert q.tables[..|q.tables|] == q.tables;
    var row := RowOf(Columns(q.whereConds + q.onConds), x.tab, env);
    assert x.col in row && row[x.col] == env(x);
  }

  /** On the single tuple of the witness every condition of the query reads as in `env`. */
  lemma WitnessHolds(q: Query, env: Env, c: Cond)
    requires Named(q) && (c in q.whereConds || c in q.onConds)
    ensures Holds(EnvOf(Witness(q, env), Only(q)), c) <==> Holds(env, c)
  {
    var conds := q.whereConds + q.onConds;
    assert c in conds;
    var i :| 0 <= i < |conds| && conds[i] == c;
    assert conds[i].lhs in Columns(conds);
    WitnessVal(q, env, c.lhs);
    if c.ColCol? {
      assert conds[i].rhs in Columns(conds);
      WitnessVal(q, env, c.rhs);
    }
  }

  lemma WitnessFilter(q: Query, env: Env, filters: Filters, joins: seq<Cond>, name: string, c: Cond)
    requires Named(q) && Sorted(q, filters, joins) && c in Get(filters, name)
    ensures Holds(EnvOf(Witness(q, env), Only(q)), c) <==> Holds(env, c)
  {
    if c in q.whereConds {
      WitnessHolds(q, env, c);
    } else {
      var i :| 0 <= i < |joins| && joins[i].ColCol? && (joins[i].lhs == c.lhs || joins[i].rhs == c.lhs);
      var conds := q.whereConds + q.onConds;
      assert joins[i] in joins;
      assert joins[i] in conds;
      var k :| 0 <= k < |conds| && conds[k] == joins[i];
      assert conds[k].lhs in Columns(conds) && conds[k].rhs in Columns(conds);
      WitnessVal(q, env, c.lhs);
    }
  }

  /** Values that the plan lets through make a database on which it does. */
  lemma WitnessIsDelivered(q: Query, meta: map<TabCol, ColMeta>, env: Env)
    requires Named(q) && Meets(q, env) && FiltersHold(env, ScanFilters(q, meta))
    ensures Delivered(q, meta, Witness(q, env), Only(q))
  {
    var cx, t, filters := Witness(q, env), Only(q), ScanFilters(q, meta);
    PlannerSorts(q, meta);
    forall c | c in q.whereConds || (c in q.onConds && !OneTable(c)) ensures Holds(EnvOf(cx, t), c) {
      WitnessHolds(q, env, c);
    }
    forall name ensures AllHold(EnvOf(cx, t), Get(filters, name)) {
      assert AllHold(env, Get(filters, name));
      forall k | 0 <= k < |Get(filters, name)| ensures Holds(EnvOf(cx, t), Get(filters, name)[k]) {
        WitnessFilter(q, env, filters, JoinConds(q), name, Get(filters, name)[k]);
      }
    }
  }

  /** The plan is exact on every database if and only if ON follows from what it checks: a set of
      values that passes and fails ON makes a database with one row in each table that shows it. */
  lemma ExactIff(q: Query, meta: map<TabCol, ColMeta>)
    requires Named(q)
    ensures Exact(q, meta) <==> OnFollows(q, meta)
  {
    if OnFollows(q, meta) {
      forall cx: Ctx, t: Tuple ensures Delivered(q, meta, cx, t) <==> Answers(q, cx, t) {
        DeliversAnswers(q, meta, cx, t);
      }
    }
    if Exact(q, meta) {
      forall env: Env | Meets(q, env) && FiltersHold(env, ScanFilters(q, meta)) ensures OnHolds(q, env) {
        WitnessIsDelivered(q, meta, env);
        assert Answers(q, Witness(q, env), Only(q));
        forall c | c in q.onConds ensures Holds(env, c) { WitnessHolds(q, env, c); }
      }
    }
  }

  /** Unless ON equates two columns of one table, the plan is exact if and only if WHERE and the
      cross-table conditions of ON imply the other conditions of ON. */
  lemma ExactWithoutLocalEqualities(q: Query, meta: map<TabCol, ColMeta>)
    requires Named(q) && NoLocalEquality(q)
    ensures Exact(q, meta) <==> forall env: Env {:trigger Meets(q, env)} :: Meets(q, env) ==> OnHolds(q, env)
  {
    ExactIff(q, meta);
    forall env: Env | Meets(q, env) ensures FiltersHold(env, ScanFilters(q, meta)) { ConstantsFollow(q, meta, env); }
  }

  /** A query whose ON compares different tables throughout is answered. */
  lemma CrossOnIsExact(q: Query, meta: map<TabCol, ColMeta>)
    requires Named(q) && forall c :: c in q.onConds ==> !OneTable(c)
    ensures Exact(q, meta)
  {
    ExactWithoutLocalEqualities(q, meta);
  }

  /** A constant comparison in ON is looked at by no scan and no level, so a row that fails it is
      returned all the same. */
  method OnConstantIsDropped() returns (q: Query, cx: Ctx, out: seq<Tuple>, t: Tuple)
    ensures q.tables == cx.tables && DistinctNames(q.tables) && Named(q)
    ensures t in out && !Answers(q, cx, t)
  {
    var a, b, rid := "a", "b", IxModel.Rid(1, 0);
    var c := ColVal(TabCol(a, "x"), P.EQ, 1);
    q := Query([a, b], [], [c]);
    cx := Ctx([a, b], map[a := map[rid := map["x" := 0]], b := map[rid := map[]]]);
    t := [rid, rid];
    assert a[0] != b[0];
    PositionOf(cx.tables, 0);
    assert c in q.onConds && !Holds(EnvOf(cx, t), c);
    var r;
    ghost var log;
    r, log := Select(q, map[], map[], cx, map[a := [rid], b := [rid]], map[]);
    assert InProduct(cx, t);
    out := r.value;
  }

  /** ON equates two columns. */
  function LocalQuery(tables: seq<string>, whereConds: seq<Cond>, x: TabCol, y: TabCol): Query {
    Query(tables, whereConds, [ColCol(x, P.EQ, y)])
  }

  /** An equality in ON between two columns of one table is dropped when WHERE is empty; but a constant
      for one of the columns is carried to the other, and then the filters check it. */
  lemma LocalEqualityNeedsConstant(tables: seq<string>, meta: map<TabCol, ColMeta>, x: TabCol, y: TabCol, v: int)
    requires x.tab == y.tab && x.tab in tables && x.col != y.col && Compatible(meta, x, y)
    ensures !Exact(LocalQuery(tables, [], x, y), meta)
    ensures Exact(LocalQuery(tables, [ColVal(x, P.EQ, v)], x, y), meta)
  {
    LocalEqualityAlone(tables, meta, x, y);
    LocalEqualityWithConstant(tables, meta, x, y, v);
  }

  lemma LocalEqualityAlone(tables: seq<string>, meta: map<TabCol, ColMeta>, x: TabCol, y: TabCol)
    requires x.tab == y.tab && x.tab in tables && x.col != y.col
    ensures !Exact(LocalQuery(tables, [], x, y), meta)
  {
    var q := LocalQuery(tables, [], x, y);
    var env: Env := (c: TabCol) => if c == x then 1 else 0;
    PlannerSorts(q, meta);
    assert Meets(q, env) && FiltersHold(env, ScanFilters(q, meta));
    assert q.onConds[0] in q.onConds && !Holds(env, q.onConds[0]);
    ExactIff(q, meta);
  }

  /** The only constant the scans compare `y` with is the one carried over from `x`. */
  lemma ConstantIsCarried(q: Query, meta: map<TabCol, ColMeta>, c: Cond, y: TabCol) returns (d: Cond)
    requires c.ColVal? && c.op == P.EQ && c.lhs.tab == y.tab && c.lhs.col != y.col && Compatible(meta, c.lhs, y)
    requires q.whereConds == [c] && q.onConds == [ColCol(c.lhs, P.EQ, y)]
    ensures d == ColVal(y, P.EQ, c.val) && d in Get(ScanFilters(q, meta), y.tab)
  {
    var x, t := c.lhs, y.tab;
    var filters0, filters, joins := TableFilters(q.whereConds), ScanFilters(q, meta), JoinConds(q);
    Classified(q.whereConds);
    PropagatedIsClosed(meta, filters0, filters0, joins);
    assert c in Get(filters0, t) && Get(filters0, t) <= Get(filters, t);
    var k :| 0 <= k < |Get(filters0, t)| && Get(filters0, t)[k] == c;
    assert Get(filters, t)[k] == c;
    assert HasConstant(filters, x);
    assert joins[0] == ColCol(x, P.EQ, y) && ClosedAt(meta, filters, joins[0]);
    var i :| 0 <= i < |Get(filters, t)| && IsConstant(Get(filters, t)[i], y.col);
    d := Get(filters, t)[i];
    assert d in Get(filters, t) && d.lhs == y;
    assert d !in Get(filters0, t) && Carried(filters0, joins, d);
  }

  lemma LocalEqualityWithConstant(tables: seq<string>, meta: map<TabCol, ColMeta>, x: TabCol, y: TabCol, v: int)
    requires x.tab == y.tab && x.tab in tables && x.col != y.col && Compatible(meta, x, y)
    ensures Exact(LocalQuery(tables, [ColVal(x, P.EQ, v)], x, y), meta)
  {
    var c := ColVal(x, P.EQ, v);
    var q := LocalQuery(tables, [c], x, y);
    var d := ConstantIsCarried(q, meta, c, y);
    var filters := ScanFilters(q, meta);
    forall env: Env | Meets(q, env) && FiltersHold(env, filters) ensures OnHolds(q, env) {
      assert AllHold(env, Get(filters, y.tab)) && Holds(env, d) && c in q.whereConds && Holds(env, c);
    }
    ExactIff(q, meta);
  }
}
