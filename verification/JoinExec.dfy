/** The two nested-loop join executors as cursors over a left input, and what they deliver when
    drained. A joined tuple is the sequence of the RIDs of its rows, in FROM order. */
module JoinExec {
  import opened Basics
  import opened IxIndex
  import opened Propagation
  import B = MvccProbe
  import IxModel
  import S = IndexScanExec

  type Rid = IxModel.Rid
  type Tuple = seq<Rid>
  type Row = map<string, int>

  /** The tables in FROM order under their visible names, and the rows the statement sees. */
  datatype Ctx = Ctx(tables: seq<string>, db: map<string, map<Rid, Row>>)

  function Rows(cx: Ctx, t: string): map<Rid, Row> {
    if t in cx.db then cx.db[t] else map[]
  }

  function Cell(cx: Ctx, t: string, rid: Rid, col: string): int {
    if rid in Rows(cx, t) && col in Rows(cx, t)[rid] then Rows(cx, t)[rid][col] else 0
  }

  /** First position of `x`, or the length. */
  function IndexOf(s: seq<string>, x: string): (i: nat)
    ensures i <= |s| && (i < |s| ==> s[i] == x) && forall j :: 0 <= j < i ==> s[j] != x
    decreases |s|
  {
    if s == [] then 0 else if s[0] == x then 0 else 1 + IndexOf(s[1..], x)
  }

  function Val(cx: Ctx, tup: Tuple, c: TabCol): int {
    var i := IndexOf(cx.tables, c.tab);
    if i < |tup| && i < |cx.tables| then Cell(cx, c.tab, tup[i], c.col) else 0
  }

  function EnvOf(cx: Ctx, tup: Tuple): Env {
    c => Val(cx, tup, c)
  }

  /** A single row of table `t`. */
  function RowEnv(cx: Ctx, t: string, rid: Rid): Env {
    (c: TabCol) => if c.tab == t then Cell(cx, t, rid, c.col) else 0
  }

  method EvalConds(env: Env, conds: seq<Cond>) returns (ok: bool)
    ensures ok <==> AllHold(env, conds)
  {
    for i := 0 to |conds|
      invariant forall j :: 0 <= j < i ==> Holds(env, conds[j])
    {
      if !Holds(env, conds[i]) {
        return false;
      }
    }
    ok := true;
  }

  function Init(t: Tuple): Tuple
    requires t != []
  {
    t[..|t| - 1]
  }

  function Last(t: Tuple): Rid
    requires t != []
  {
    t[|t| - 1]
  }

  /** `t` pairs a tuple of `left` with a row of `right`. */
  ghost predicate Pairs(t: Tuple, left: seq<Tuple>, right: seq<Rid>) {
    t != [] && Init(t) in left && Last(t) in right
  }

  // ---------------------------------------------------------------- scan

  /** A scan with its filter: `order` is the sequence in which its rows come, from the heap or an index. */
  method ScanTable(cx: Ctx, t: string, order: seq<Rid>, filter: seq<Cond>) returns (out: seq<Rid>)
    requires NoRepeats(order)
    ensures NoRepeats(out)
    ensures forall rid :: rid in out <==> rid in order && rid in Rows(cx, t) && AllHold(RowEnv(cx, t, rid), filter)
  {
    out := [];
    for i := 0 to |order|
      invariant NoRepeats(out)
      invariant forall rid :: rid in out <==>
                  rid in order[..i] && rid in Rows(cx, t) && AllHold(RowEnv(cx, t, rid), filter)
    {
      var rid := order[i];
      assert order[..i + 1] == order[..i] + [rid];
      NotBefore(order, i);
      if rid in Rows(cx, t) {
        var ok := EvalConds(RowEnv(cx, t, rid), filter);
        if ok {
          AppendNew(out, rid);
          out := out + [rid];
        }
      }
    }
    assert order[..|order|] == order;
  }

  // ---------------------------------------------------------------- nested-loop join

  class NestedLoopJoinExecutor {
    const cx: Ctx
    const left: seq<Tuple>
    const right: seq<Rid>
    const conds: seq<Cond>
    var li: nat
    var ri: nat
    var isEnd: bool

    constructor (cx: Ctx, left: seq<Tuple>, right: seq<Rid>, conds: seq<Cond>)
      ensures this.cx == cx && this.left == left && this.right == right && this.conds == conds
    {
      this.cx, this.left, this.right, this.conds := cx, left, right, conds;
      li, ri, isEnd := 0, 0, false;
    }

    ghost predicate Matches(i: int, j: int)
      requires 0 <= i < |left| && 0 <= j < |right|
    {
      AllHold(EnvOf(cx, left[i] + [right[j]]), conds)
    }

    /** Pair `(i, j)` comes before the cursor. */
    predicate Past(i: int, j: int)
      reads this
    {
      i < li || (i == li && j < ri)
    }

    predicate Placed()
      reads this
    {
      li <= |left| && ri <= |right|
    }

    /** The cursor stands on a match, or the join is over. */
    ghost predicate Valid()
      reads this
    {
      Placed() && (!isEnd ==> li < |left| && ri < |right| && Matches(li, ri))
    }

    function Current(): Tuple
      requires li < |left| && ri < |right|
      reads this
    {
      left[li] + [right[ri]]
    }

    /** Moves to the first match at or after the cursor. */
    method AdvanceToNextValid()
      requires Placed()
      modifies this
      ensures Valid() && (li > old(li) || (li == old(li) && ri >= old(ri)))
      ensures forall i, j :: 0 <= i < |left| && 0 <= j < |right| && !old(Past(i, j)) && (isEnd || Past(i, j)) ==>
                !Matches(i, j)
    {
      while li < |left|
        invariant Placed() && (li > old(li) || (li == old(li) && ri >= old(ri)))
        invariant forall i, j :: 0 <= i < |left| && 0 <= j < |right| && !old(Past(i, j)) && Past(i, j) ==>
                    !Matches(i, j)
        decreases |left| - li
      {
        ghost var at := li;
        while ri < |right|
          invariant Placed() && li == at < |left| && (li > old(li) || (li == old(li) && ri >= old(ri)))
          invariant forall i, j :: 0 <= i < |left| && 0 <= j < |right| && !old(Past(i, j)) && Past(i, j) ==>
                      !Matches(i, j)
          decreases |right| - ri
        {
          var ok := EvalConds(EnvOf(cx, Current()), conds);
          if ok {
            isEnd := false;
            return;
          }
          ri := ri + 1;
        }
        li := li + 1;
        if li < |left| {
          ri := 0;
        }
      }
      isEnd := true;
    }

    method BeginTuple()
      modifies this
      ensures Valid()
      ensures forall i, j :: 0 <= i < |left| && 0 <= j < |right| && (isEnd || Past(i, j)) ==> !Matches(i, j)
    {
      li, ri := 0, 0;
      if left == [] || right == [] {
        isEnd := true;
        return;
      }
      AdvanceToNextValid();
    }

    method NextTuple()
      requires Valid()
      modifies this
      ensures Valid() && (old(isEnd) ==> isEnd)
      ensures !old(isEnd) ==> old(li) < li || (li == old(li) && old(ri) < ri)
      ensures !old(isEnd) ==>
                forall i, j ::
                  (0 <= i < |left| && 0 <= j < |right|
                   && !old(Past(i, j)) && (i, j) != old((li, ri)) && (isEnd || Past(i, j))) ==>
                    !Matches(i, j)
    {
      if isEnd {
        return;
      }
      ri := ri + 1;
      if ri >= |right| {
        li := li + 1;
        if li < |left| {
          ri := 0;
        }
      }
      AdvanceToNextValid();
    }
  }

  /** The first pairs of a join are delivered, up to the cursor of `e` when it was at `(li, ri)`. */
  ghost predicate Paired(e: NestedLoopJoinExecutor, out: seq<Tuple>, from: seq<(int, int)>, li: int, ri: int) {
    && |from| == |out|
    && (forall k {:trigger out[k]} {:trigger from[k]} :: 0 <= k < |out| ==>
          && 0 <= from[k].0 < |e.left| && 0 <= from[k].1 < |e.right| && e.Matches(from[k].0, from[k].1)
          && Before(from[k].0, from[k].1, li, ri) && out[k] == e.left[from[k].0] + [e.right[from[k].1]])
    && (forall i, j {:trigger e.Matches(i, j)} ::
        0 <= i < |e.left| && 0 <= j < |e.right| && Before(i, j, li, ri) && e.Matches(i, j) ==>
          e.left[i] + [e.right[j]] in out)
    && (NoRepeats(e.left) && NoRepeats(e.right) ==> NoRepeats(out))
  }

  lemma PairedOne(e: NestedLoopJoinExecutor, out: seq<Tuple>, from: seq<(int, int)>, li: int, ri: int)
    requires Paired(e, out, from, li, ri) && 0 <= li < |e.left| && 0 <= ri < |e.right| && e.Matches(li, ri)
    ensures Paired(e, out + [e.left[li] + [e.right[ri]]], from + [(li, ri)], li, ri + 1)
  {
    var t := e.left[li] + [e.right[ri]];
    if NoRepeats(e.left) && NoRepeats(e.right) {
      forall k | 0 <= k < |out| ensures out[k] != t {
        PairsDiffer(e.left, e.right, from[k].0, from[k].1, li, ri);
      }
      AppendNew(out, t);
    }
    forall i, j | 0 <= i < |e.left| && 0 <= j < |e.right| && Before(i, j, li, ri + 1) && e.Matches(i, j)
      ensures e.left[i] + [e.right[j]] in out + [t]
    {
      if (i, j) != (li, ri) { assert Before(i, j, li, ri); }
    }
  }

  /** All tuples of a nested-loop join, from `beginTuple` to `is_end`. */
  method DrainNestedLoop(cx: Ctx, left: seq<Tuple>, right: seq<Rid>, conds: seq<Cond>) returns (out: seq<Tuple>)
    ensures NoRepeats(left) && NoRepeats(right) ==> NoRepeats(out)
    ensures forall t :: t in out <==> Pairs(t, left, right) && AllHold(EnvOf(cx, t), conds)
  {
    var e := new NestedLoopJoinExecutor(cx, left, right, conds);
    ghost var from;
    out, from := RunNestedLoop(e);
    forall t ensures t in out <==> Pairs(t, left, right) && AllHold(EnvOf(cx, t), conds) { PairedIs(e, out, from, t); }
  }

  method RunNestedLoop(e: NestedLoopJoinExecutor) returns (out: seq<Tuple>, ghost from: seq<(int, int)>)
    modifies e
    ensures Paired(e, out, from, |e.left|, 0)
  {
    e.BeginTuple();
    out, from := [], [];
    while !e.isEnd
      invariant e.Valid() && if e.isEnd then Paired(e, out, from, |e.left|, 0) else Paired(e, out, from, e.li, e.ri)
      decreases if e.isEnd then 0 else 1, |e.left| - e.li, |e.right| - e.ri
    {
      out, from := DeliverPair(e, out, from);
    }
  }

  method DeliverPair(e: NestedLoopJoinExecutor, out: seq<Tuple>, ghost from: seq<(int, int)>)
      returns (out': seq<Tuple>, ghost from': seq<(int, int)>)
    requires e.Valid() && !e.isEnd && Paired(e, out, from, e.li, e.ri)
    modifies e
    ensures e.Valid() && if e.isEnd then Paired(e, out', from', |e.left|, 0) else Paired(e, out', from', e.li, e.ri)
    ensures !e.isEnd ==> Before(old(e.li), old(e.ri), e.li, e.ri)
  {
    ghost var li, ri := e.li, e.ri;
    PairedOne(e, out, from, li, ri);
    out', from' := out + [e.Current()], from + [(li, ri)];
    e.NextTuple();
    PairedFurther(e, out', from', li, ri + 1, if e.isEnd then |e.left| else e.li, if e.isEnd then 0 else e.ri);
  }

  lemma PairedFurther(e: NestedLoopJoinExecutor, out: seq<Tuple>, from: seq<(int, int)>, li: int, ri: int, li': int,
                      ri': int)
    requires Paired(e, out, from, li, ri) && !Before(li', ri', li, ri) && li' <= |e.left|
    requires forall i, j {:trigger e.Matches(i, j)} ::
               0 <= i < |e.left| && 0 <= j < |e.right| && !Before(i, j, li, ri) && Before(i, j, li', ri') ==>
               !e.Matches(i, j)
    ensures Paired(e, out, from, li', ri')
  {
    forall k | 0 <= k < |out| ensures Before(from[k].0, from[k].1, li', ri') {
      assert Before(from[k].0, from[k].1, li, ri);
    }
  }

  lemma PairedIs(e: NestedLoopJoinExecutor, out: seq<Tuple>, from: seq<(int, int)>, t: Tuple)
    requires Paired(e, out, from, |e.left|, 0)
    ensures t in out <==> Pairs(t, e.left, e.right) && AllHold(EnvOf(e.cx, t), e.conds)
  {
    if t in out {
      var k :| 0 <= k < |out| && out[k] == t;
      assert Init(t) == e.left[from[k].0] && Last(t) == e.right[from[k].1];
    }
    if Pairs(t, e.left, e.right) && AllHold(EnvOf(e.cx, t), e.conds) {
      var i :| 0 <= i < |e.left| && e.left[i] == Init(t);
      var j :| 0 <= j < |e.right| && e.right[j] == Last(t);
      assert t == e.left[i] + [e.right[j]];
      assert e.Matches(i, j) && Before(i, j, |e.left|, 0);
    }
  }

  lemma PairsDiffer(left: seq<Tuple>, right: seq<Rid>, i: nat, j: nat, k: nat, l: nat)
    requires NoRepeats(left) && NoRepeats(right) && i < |left| && k < |left| && j < |right| && l < |right|
             && (i, j) != (k, l)
    ensures left[i] + [right[j]] != left[k] + [right[l]]
  {
    var a, b := left[i] + [right[j]], left[k] + [right[l]];
    assert Init(a) == left[i] && Last(a) == right[j];
    assert Init(b) == left[k] && Last(b) == right[l];
  }

  // ---------------------------------------------------------------- index nested-loop join

  /** What the other sessions do around one probe: the handoff epoch it starts from, and its rounds. */
  datatype Probing = Probing(epoch: nat, rounds: seq<B.Round>)

  /** A probe as it went: the value looked up, what its scans met, whether it ended, the candidates. */
  datatype Probed = Probed(val: int, others: Probing, seen: seq<B.Seen>, done: bool, found: seq<Rid>)

  /** The rows of a table as an index over one of its columns sees them. */
  function Column(cx: Ctx, c: TabCol): S.Table {
    map rid | rid in Rows(cx, c.tab) :: [Cell(cx, c.tab, rid, c.col)]
  }

  function OneColumn(radix: nat): S.IndexMeta {
    S.IndexMeta([0], [radix])
  }

  /** The probe ended, and a run of the protocol accounts for what it met. */
  ghost predicate Accounted(cx: Ctx, inner: TabCol, radix: nat, p: Probed) {
    p.done && exists y: S.Story ::
      S.Explains(y, Column(cx, inner), OneColumn(radix), B.Range(p.val, p.val), p.others.epoch, p.others.rounds, p.seen)
  }

  /** Every row with the value is among the candidates, none twice; there may be others. */
  ghost predicate Complete(cx: Ctx, inner: TabCol, p: Probed) {
    && NoRepeats(p.found)
    && forall rid :: rid in Rows(cx, inner.tab) && Cell(cx, inner.tab, rid, inner.col) == p.val ==> rid in p.found
  }

  /** The probe for the outer value of a left tuple. */
  ghost predicate ProbedFor(cx: Ctx, outer: TabCol, inner: TabCol, radix: nat, l: Tuple, p: Probed) {
    p.val == Val(cx, l, outer) && (Accounted(cx, inner, radix, p) ==> Complete(cx, inner, p))
  }

  lemma ProbeIsFaithful(cx: Ctx, outer: TabCol, inner: TabCol, radix: nat, l: Tuple, p: Probed)
    requires radix > 0 && p.val == Val(cx, l, outer)
    requires forall y: S.Story {:trigger S.Explains(y, Column(cx, inner), OneColumn(radix), B.Range(p.val, p.val),
                                                    p.others.epoch, p.others.rounds, p.seen)} ::
               S.Explains(y, Column(cx, inner), OneColumn(radix), B.Range(p.val, p.val), p.others.epoch,
                          p.others.rounds, p.seen) ==>
                 NoRepeats(p.found) && (p.done ==>
                     forall rid :: S.HasValue(Column(cx, inner), OneColumn(radix), rid, p.val) ==> rid in p.found)
    ensures ProbedFor(cx, outer, inner, radix, l, p)
  {
    if Accounted(cx, inner, radix, p) {
      var y: S.Story :| S.Explains(y, Column(cx, inner), OneColumn(radix), B.Range(p.val, p.val), p.others.epoch,
                                   p.others.rounds, p.seen);
      forall rid | rid in Rows(cx, inner.tab) && Cell(cx, inner.tab, rid, inner.col) == p.val ensures rid in p.found {
        assert S.Fits(Column(cx, inner)[rid], OneColumn(radix)) by {
          assert S.SnapshotIs(y.states[y.start], y.r, Column(cx, inner), OneColumn(radix));
          assert rid in Column(cx, inner);
        }
        assert S.HasValue(Column(cx, inner), OneColumn(radix), rid, p.val);
      }
    }
  }

  /** A visible row that passes the filter and, joined to the left tuple, the conditions. */
  ghost predicate Match(cx: Ctx, table: string, filter: seq<Cond>, conds: seq<Cond>, l: Tuple, rid: Rid) {
    rid in Rows(cx, table) && AllHold(RowEnv(cx, table, rid), filter) && AllHold(EnvOf(cx, l + [rid]), conds)
  }

  /** Candidate `j` of left tuple `i` comes before the cursor. */
  predicate Before(i: int, j: int, li: int, pos: int) {
    i < li || (i == li && j < pos)
  }

  /** Left tuple `i` and its candidate `j`. */
  predicate IsPair(left: seq<Tuple>, log: seq<Probed>, i: int, j: int) {
    0 <= i < |left| && i < |log| && 0 <= j < |log[i].found|
  }

  class IndexNestedLoopJoinExecutor {
    const cx: Ctx
    const left: seq<Tuple>
    const table: string
    const filter: seq<Cond>
    const conds: seq<Cond>
    const outer: TabCol
    const inner: TabCol
    const ih: IxIndexHandle
    const radix: nat
    const script: seq<Probing>
    var li: nat
    var candidates: seq<Rid>
    var pos: nat
    var isEnd: bool
    ghost var log: seq<Probed>

    constructor (cx: Ctx, left: seq<Tuple>, table: string, filter: seq<Cond>, conds: seq<Cond>, outer: TabCol,
                 inner: TabCol,
                 ih: IxIndexHandle, radix: nat, script: seq<Probing>)
      ensures this.cx == cx && this.left == left && this.table == table && this.filter == filter && this.conds == conds
      ensures this.outer == outer && this.inner == inner && this.ih == ih && this.radix == radix
              && this.script == script
      ensures log == [] && li == 0
    {
      this.cx, this.left, this.table, this.filter, this.conds := cx, left, table, filter, conds;
      this.outer, this.inner, this.ih, this.radix, this.script := outer, inner, ih, radix, script;
      li, candidates, pos, isEnd, log := 0, [], 0, true, [];
    }

    /** Pair `(i, j)` is one the join delivers. */
    ghost predicate Matches(log: seq<Probed>, i: int, j: int) {
      IsPair(left, log, i, j) && Match(cx, table, filter, conds, left[i], log[i].found[j])
    }

    /** No match from the one cursor up to the other. */
    ghost predicate NoneBetween(log: seq<Probed>, i0: int, j0: int, i1: int, j1: int) {
      forall i, j {:trigger Matches(log, i, j)} :: !Before(i, j, i0, j0) && Before(i, j, i1, j1) ==> !Matches(log, i, j)
    }

    /** Each probe so far was for its left tuple. */
    ghost predicate Logged(log: seq<Probed>) {
      |log| <= |left| && forall i {:trigger log[i]} :: 0 <= i < |log| ==>
          ProbedFor(cx, outer, inner, radix, left[i], log[i])
    }

    ghost predicate Placed()
      reads this, ih
    {
      && ih.Valid() && radix > 0 && Logged(log) && li <= |left| && pos <= |candidates|
      && if li < |left| then |log| == li + 1 && candidates == log[li].found else |log| == |left|
    }

    /** The last candidate taken is a match, or the join is over. */
    ghost predicate Valid()
      reads this, ih
    {
      Placed() && if isEnd then li == |left| else li < |left| && 0 < pos && Matches(log, li, pos - 1)
    }

    /** Candidates of the current left tuple that have been passed. */
    ghost function Cursor(): int
      reads this
    {
      if isEnd then 0 else pos - 1
    }

    method OpenProbe()
      requires ih.Valid() && radix > 0 && li < |left| && |log| == li && Logged(log)
      modifies this`candidates, this`pos, this`log, ih
      ensures Placed() && pos == 0 && |log| == li + 1 && log[..li] == old(log)
    {
      var others := if li < |script| then script[li] else Probing(0, []);
      var v := Val(cx, left[li], outer);
      var done;
      ghost var seen;
      candidates, done, seen := S.OpenProbe(ih, OneColumn(radix), Column(cx, inner), v, others.epoch, others.rounds);
      ghost var p := Probed(v, others, seen, done, candidates);
      ProbeIsFaithful(cx, outer, inner, radix, left[li], p);
      pos, log := 0, log + [p];
    }

    /** Takes candidates of the left tuple until one passes the filter and the join conditions. */
    method TakeCandidate() returns (found: bool)
      requires li < |left| && |log| == li + 1 && candidates == log[li].found && pos <= |candidates|
      modifies this`pos
      ensures old(pos) <= pos <= |candidates|
      ensures if found then old(pos) < pos && Matches(log, li, pos - 1) else pos == |candidates|
      ensures NoneBetween(log, li, old(pos), li, if found then pos - 1 else pos)
    {
      while pos < |candidates|
        invariant old(pos) <= pos <= |candidates|
        invariant NoneBetween(log, li, old(pos), li, pos)
      {
        var rid := candidates[pos];
        pos := pos + 1;
        if rid in Rows(cx, table) {
          var passes := EvalConds(RowEnv(cx, table, rid), filter);
          if passes {
            var joins := EvalConds(EnvOf(cx, left[li] + [rid]), conds);
            if joins {
              return true;
            }
          }
        }
      }
      found := false;
    }

    /** Goes on to the next candidate that matches, opening a probe for each further left tuple. */
    method AdvanceToNextValid()
      requires Placed()
      modifies this, ih
      ensures Valid() && old(log) <= log && (!isEnd ==> Before(old(li), old(pos), li, pos))
      ensures NoneBetween(log, old(li), old(pos), li, Cursor())
    {
      while li < |left|
        invariant Placed() && old(log) <= log && !Before(li, pos, old(li), old(pos))
        invariant NoneBetween(log, old(li), old(pos), li, if li < |left| then pos else 0)
        decreases |left| - li
      {
        var found := TakeCandidate();
        if found {
          isEnd := false;
          return;
        }
        NextLeft(old(li), old(pos));
      }
      isEnd := true;
    }

    /** The left tuple is done: on to the next one and its probe. */
    method NextLeft(ghost i0: int, ghost j0: int)
      requires Placed() && li < |left| && pos == |candidates| && NoneBetween(log, i0, j0, li, pos)
      modifies this`li, this`candidates, this`pos, this`log, ih
      ensures Placed() && li == old(li) + 1 && old(log) <= log
              && NoneBetween(log, i0, j0, li, if li < |left| then pos else 0)
      ensures li < |left| ==> pos == 0
    {
      ghost var log0, li0, pos0 := log, li, pos;
      li := li + 1;
      if li < |left| {
        OpenProbe();
      }
      NothingLeft(log0, log, i0, j0, li0, pos0);
    }

    /** The last candidate of one left tuple and the first of the next have nothing between them. */
    lemma NothingLeft(log: seq<Probed>, log': seq<Probed>, i0: int, j0: int, li: nat, pos: nat)
      requires li < |log| <= |log'| && log' [..|log|] == log && |log| == li + 1 && pos == |log[li].found|
      requires NoneBetween(log, i0, j0, li, pos)
      ensures NoneBetween(log', i0, j0, li + 1, 0)
    {
      forall i, j | !Before(i, j, i0, j0) && Before(i, j, li + 1, 0) && IsPair(left, log', i, j)
        ensures !Matches(log', i, j)
      {
        assert log'[i] == log[i];
        assert !Matches(log, i, j);
      }
    }

    method BeginTuple()
      requires ih.Valid() && radix > 0 && log == []
      modifies this, ih
      ensures Valid() && NoneBetween(log, 0, 0, li, Cursor())
    {
      li := 0;
      if left == [] {
        candidates, pos, isEnd := [], 0, true;
        return;
      }
      OpenProbe();
      AdvanceToNextValid();
    }
  }

  /** The `k`-th tuple delivered comes from candidate `from[k].1` of left tuple `from[k].0`, and the
      matches before the cursor are all delivered. */
  ghost predicate Drained(e: IndexNestedLoopJoinExecutor, log: seq<Probed>, out: seq<Tuple>, from: seq<(int, int)>,
                          li: int, pos: int) {
    && |from| == |out|
    && (forall k {:trigger out[k]} {:trigger from[k]} :: 0 <= k < |out| ==>
          && Before(from[k].0, from[k].1, li, pos) && e.Matches(log, from[k].0, from[k].1)
          && out[k] == e.left[from[k].0] + [log[from[k].0].found[from[k].1]])
    && (forall i, j {:trigger e.Matches(log, i, j)} :: Before(i, j, li, pos) && e.Matches(log, i, j) ==>
          e.left[i] + [log[i].found[j]] in out)
    && (AllOnce(e.left, log) ==> NoRepeats(out))
  }

  ghost predicate AllOnce(left: seq<Tuple>, log: seq<Probed>) {
    NoRepeats(left) && forall i {:trigger log[i]} :: 0 <= i < |log| ==> NoRepeats(log[i].found)
  }

  /** Up to the cursor nothing changes when more probes are logged and nothing matches in between. */
  lemma DrainedFurther(e: IndexNestedLoopJoinExecutor, log: seq<Probed>, log': seq<Probed>, out: seq<Tuple>,
                       from: seq<(int, int)>,
                       li: int, pos: int, li': int, pos': int)
    requires Drained(e, log, out, from, li, pos) && log <= log' && !Before(li', pos', li, pos)
    requires li < |log| || |log| == |e.left|
    requires e.NoneBetween(log', li, pos, li', pos')
    ensures Drained(e, log', out, from, li', pos')
  {
    forall k | 0 <= k < |out|
      ensures Before(from[k].0, from[k].1, li', pos') && e.Matches(log', from[k].0, from[k].1)
    {
      assert log'[from[k].0] == log[from[k].0];
    }
    forall i, j | Before(i, j, li', pos') && e.Matches(log', i, j) ensures e.left[i] + [log'[i].found[j]] in out {
      assert Before(i, j, li, pos);
      assert log'[i] == log[i] && e.Matches(log, i, j);
    }
    if AllOnce(e.left, log') {
      forall i | 0 <= i < |log| ensures NoRepeats(log[i].found) { assert log'[i] == log[i]; }
    }
  }

  /** The match the cursor stands on is delivered. */
  lemma DrainedOne(e: IndexNestedLoopJoinExecutor, log: seq<Probed>, out: seq<Tuple>, from: seq<(int, int)>, li: int,
                   pos: int)
    requires Drained(e, log, out, from, li, pos) && e.Matches(log, li, pos)
    ensures Drained(e, log, out + [e.left[li] + [log[li].found[pos]]], from + [(li, pos)], li, pos + 1)
  {
    var t := e.left[li] + [log[li].found[pos]];
    if AllOnce(e.left, log) {
      forall k | 0 <= k < |out| ensures out[k] != t {
        PairsApart(e.left, from[k].0, log[from[k].0].found, from[k].1, li, log[li].found, pos);
      }
      AppendNew(out, t);
    }
    forall i, j | Before(i, j, li, pos + 1) && e.Matches(log, i, j) ensures e.left[i] + [log[i].found[j]] in out + [t] {
      if (i, j) != (li, pos) { assert Before(i, j, li, pos); }
    }
  }

  /** Runs an index join from `beginTuple` to `is_end`. */
  method RunIndexJoin(e: IndexNestedLoopJoinExecutor) returns (out: seq<Tuple>, ghost from: seq<(int, int)>)
    requires e.ih.Valid() && e.radix > 0 && e.log == []
    modifies e, e.ih
    ensures e.Valid() && e.isEnd && Drained(e, e.log, out, from, e.li, 0)
  {
    e.BeginTuple();
    out, from := [], [];
    DrainedFurther(e, e.log, e.log, out, from, 0, 0, e.li, e.Cursor());
    while !e.isEnd
      invariant e.Valid() && Drained(e, e.log, out, from, e.li, e.Cursor())
      decreases if e.isEnd then 0 else 1, |e.left| - e.li, |e.candidates| - e.pos
    {
      out, from := DeliverNext(e, out, from);
    }
  }

  /** Delivers the tuple the join stands on and goes on to the next. */
  method DeliverNext(e: IndexNestedLoopJoinExecutor, out: seq<Tuple>, ghost from: seq<(int, int)>)
      returns (out': seq<Tuple>, ghost from': seq<(int, int)>)
    requires e.Valid() && !e.isEnd && Drained(e, e.log, out, from, e.li, e.Cursor())
    modifies e, e.ih
    ensures e.Valid() && Drained(e, e.log, out', from', e.li, e.Cursor())
    ensures !e.isEnd ==>
              old(e.li) < e.li || (old(e.li) == e.li && old(e.pos) < e.pos && e.candidates == old(e.candidates))
  {
    ghost var log, li, pos := e.log, e.li, e.pos;
    DrainedOne(e, log, out, from, li, pos - 1);
    out', from' := out + [e.left[e.li] + [e.candidates[e.pos - 1]]], from + [(li, pos - 1)];
    e.AdvanceToNextValid();
    DrainedFurther(e, log, e.log, out', from', li, pos, e.li, e.Cursor());
  }

  /** A tuple of the join: a left tuple with a candidate of its probe that matches. */
  ghost predicate Delivers(cx: Ctx, left: seq<Tuple>, table: string, filter: seq<Cond>, conds: seq<Cond>,
                           log: seq<Probed>, t: Tuple)
    requires |log| == |left|
  {
    exists i {:trigger left[i]} {:trigger log[i]} ::
      && 0 <= i < |left| && t != [] && left[i] == Init(t) && Last(t) in log[i].found
      && Match(cx, table, filter, conds, left[i], Last(t))
  }

  /** One probe for each left tuple, and exactly the matches among their candidates; each tuple once if no
      left tuple and no candidate comes twice. */
  ghost predicate JoinedBy(cx: Ctx, left: seq<Tuple>, table: string, filter: seq<Cond>, conds: seq<Cond>, outer: TabCol,
                           inner: TabCol,
                           radix: nat, log: seq<Probed>, out: seq<Tuple>) {
    && |log| == |left|
    && (forall i {:trigger log[i]} :: 0 <= i < |log| ==> ProbedFor(cx, outer, inner, radix, left[i], log[i]))
    && (forall t :: t in out <==> Delivers(cx, left, table, filter, conds, log, t))
    && (AllOnce(left, log) ==> NoRepeats(out))
  }

  /** All tuples of an index join, and its probes. */
  method DrainIndexJoin(cx: Ctx, left: seq<Tuple>, table: string, filter: seq<Cond>, conds: seq<Cond>, outer: TabCol,
                        inner: TabCol,
                        ih: IxIndexHandle, radix: nat, script: seq<Probing>)
                            returns (out: seq<Tuple>, ghost log: seq<Probed>)
    requires ih.Valid() && radix > 0
    modifies ih
    ensures ih.Valid() && JoinedBy(cx, left, table, filter, conds, outer, inner, radix, log, out)
  {
    var e := new IndexNestedLoopJoinExecutor(cx, left, table, filter, conds, outer, inner, ih, radix, script);
    ghost var from;
    out, from := RunIndexJoin(e);
    log := e.log;
    forall t ensures t in out <==> Delivers(cx, left, table, filter, conds, log, t) { DrainedIs(e, log, out, from, t); }
  }

  lemma DrainedIs(e: IndexNestedLoopJoinExecutor, log: seq<Probed>, out: seq<Tuple>, from: seq<(int, int)>, t: Tuple)
    requires |log| == |e.left| && Drained(e, log, out, from, |e.left|, 0)
    ensures t in out <==> Delivers(e.cx, e.left, e.table, e.filter, e.conds, log, t)
  {
    if t in out {
      var k :| 0 <= k < |out| && out[k] == t;
      assert Init(t) == e.left[from[k].0] && Last(t) == log[from[k].0].found[from[k].1];
    }
    if Delivers(e.cx, e.left, e.table, e.filter, e.conds, log, t) {
      var i :| 0 <= i < |e.left| && t != [] && e.left[i] == Init(t) && Last(t) in log[i].found
               && Match(e.cx, e.table, e.filter, e.conds, e.left[i], Last(t));
      var j :| 0 <= j < |log[i].found| && log[i].found[j] == Last(t);
      assert t == e.left[i] + [log[i].found[j]];
      assert e.Matches(log, i, j) && Before(i, j, |e.left|, 0);
    }
  }

  lemma PairsApart(left: seq<Tuple>, i: nat, a: seq<Rid>, j: nat, k: nat, b: seq<Rid>, l: nat)
    requires NoRepeats(left) && NoRepeats(a) && i < |left| && k < |left| && j < |a| && l < |b| && (i, j) != (k, l)
             && (i == k ==> a == b)
    ensures left[i] + [a[j]] != left[k] + [b[l]]
  {
    var s, t := left[i] + [a[j]], left[k] + [b[l]];
    assert Init(s) == left[i] && Last(s) == a[j];
    assert Init(t) == left[k] && Last(t) == b[l];
  }
}
