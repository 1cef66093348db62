/** Turning WHERE conditions into index key bounds, and the index scan built on them. */
module IndexScanExec {
  import opened Basics
  import opened Predicates
  import opened KeyOrder
  import Ix = IxModel
  import opened IxIndex
  import K = SkipScan
  import M = MvccProtocol
  import B = MvccProbe

  /** An index: its columns and, for each, the number of values the column can hold. */
  datatype IndexMeta = IndexMeta(cols: seq<nat>, radices: seq<nat>)

  predicate ValidMeta(meta: IndexMeta) {
    |meta.cols| == |meta.radices| && |meta.cols| > 0 && forall i :: 0 <= i < |meta.radices| ==> meta.radices[i] > 0
  }

  /** The record has the index's columns and their values are within the columns' domains. */
  predicate Fits(rec: Record, meta: IndexMeta) {
    |meta.cols| == |meta.radices| && forall i :: 0 <= i < |meta.cols| ==>
        meta.cols[i] < |rec| && 0 <= rec[meta.cols[i]] < meta.radices[i]
  }

  /** `MakeKey`: the record's values in the index columns. */
  function MakeKey(rec: Record, meta: IndexMeta): seq<int>
    requires Fits(rec, meta)
  {
    seq(|meta.cols|, i requires 0 <= i < |meta.cols| => rec[meta.cols[i]])
  }

  predicate IsLower(c: Condition, col: nat) { c.ColVal? && c.lhs == col && (c.op == GT || c.op == GE) }
  predicate IsUpper(c: Condition, col: nat) { c.ColVal? && c.lhs == col && (c.op == LT || c.op == LE) }
  predicate IsEq(c: Condition, col: nat) { c.ColVal? && c.lhs == col && c.op == EQ }

  /** The constant of the last equality on the column. */
  function LastEq(conds: seq<Condition>, col: nat): Option<int>
    decreases |conds|
  {
    if conds == [] then None
    else
      var c := conds[|conds| - 1];
      if IsEq(c, col) then Some(c.val) else LastEq(conds[..|conds| - 1], col)
  }

  /** The greatest lower constant on the column. */
  function MaxLower(conds: seq<Condition>, col: nat): Option<int>
    decreases |conds|
  {
    if conds == [] then None
    else
      var c, rest := conds[|conds| - 1], MaxLower(conds[..|conds| - 1], col);
      if IsLower(c, col) && (rest == None || c.val > rest.value) then Some(c.val) else rest
  }

  /** The least upper constant on the column. */
  function MinUpper(conds: seq<Condition>, col: nat): Option<int>
    decreases |conds|
  {
    if conds == [] then None
    else
      var c, rest := conds[|conds| - 1], MinUpper(conds[..|conds| - 1], col);
      if IsUpper(c, col) && (rest == None || c.val < rest.value) then Some(c.val) else rest
  }

  /** One pass over the conditions finds the constants that bound a column. */
  method FindColumnConds(col: nat, conds: seq<Condition>)
      returns (eq: Option<int>, lower: Option<int>, upper: Option<int>)
    ensures eq == LastEq(conds, col) && lower == MaxLower(conds, col) && upper == MinUpper(conds, col)
  {
    eq, lower, upper := None, None, None;
    var i := 0;
    while i < |conds|
      invariant 0 <= i <= |conds|
      invariant eq == LastEq(conds[..i], col) && lower == MaxLower(conds[..i], col)
                && upper == MinUpper(conds[..i], col)
    {
      var c := conds[i];
      assert conds[..i + 1][..i] == conds[..i];
      if c.ColVal? && c.lhs == col {
        if c.op == EQ {
          eq := Some(c.val);
        } else if c.op == GT || c.op == GE {
          if lower == None || c.val > lower.value {
            lower := Some(c.val);
          }
        } else if c.op == LT || c.op == LE {
          if upper == None || c.val < upper.value {
            upper := Some(c.val);
          }
        }
      }
      i := i + 1;
    }
    assert conds[..i] == conds;
  }

  /** What these constants are: an equality's if there is one, and the tightest of the others. */
  lemma {:induction false} ColumnConsts(conds: seq<Condition>, col: nat)
    ensures LastEq(conds, col).Some? ==> exists c :: c in conds && IsEq(c, col) && c.val == LastEq(conds, col).value
    ensures LastEq(conds, col) == None <==> forall c :: c in conds ==> !IsEq(c, col)
    ensures MaxLower(conds, col).Some? ==>
              exists c :: c in conds && IsLower(c, col) && c.val == MaxLower(conds, col).value
    ensures forall c :: c in conds && IsLower(c, col) ==>
              MaxLower(conds, col).Some? && c.val <= MaxLower(conds, col).value
    ensures MinUpper(conds, col).Some? ==>
              exists c :: c in conds && IsUpper(c, col) && c.val == MinUpper(conds, col).value
    ensures forall c :: c in conds && IsUpper(c, col) ==>
              MinUpper(conds, col).Some? && c.val >= MinUpper(conds, col).value
    decreases |conds|
  {
    if conds != [] {
      var front, last := conds[..|conds| - 1], conds[|conds| - 1];
      assert conds == front + [last];
      ColumnConsts(front, col);
      assert last in conds;
      forall c | c in front ensures c in conds { }
    }
  }

  // ---------------------------------------------------------------- lexicographic facts

  /** Bounding every column bounds the composite key. */
  lemma {:induction false} LexPointwise(a: seq<int>, b: seq<int>)
    requires |a| == |b| && forall i :: 0 <= i < |a| ==> a[i] <= b[i]
    ensures LexLeq(a, b)
    decreases |a|
  {
    if a != [] {
      LexPointwise(a[1..], b[1..]);
      if a[0] == b[0] && a[1..] == b[1..] { assert a == [a[0]] + a[1..] && b == [b[0]] + b[1..]; }
    }
  }

  // ---------------------------------------------------------------- build_scan_keys

  predicate Typed(conds: seq<Condition>, meta: IndexMeta) {
    |meta.cols| == |meta.radices| &&
    forall c, i :: c in conds && c.ColVal? && 0 <= i < |meta.cols| && c.lhs == meta.cols[i] ==>
        0 <= c.val < meta.radices[i]
  }

  ghost predicate Matches(rec: Record, meta: IndexMeta, conds: seq<Condition>) {
    Fits(rec, meta) && AllBound(rec, conds) && Holds(rec, conds)
  }

  /** Every matching record has its value in index column `i` between `lo` and `hi`. */
  ghost predicate Bounded(meta: IndexMeta, conds: seq<Condition>, i: nat, lo: int, hi: int)
    requires i < |meta.cols| == |meta.radices|
  {
    0 <= lo < meta.radices[i] && 0 <= hi < meta.radices[i] &&
    forall rec :: Matches(rec, meta, conds) ==> lo <= MakeKey(rec, meta)[i] <= hi
  }

  /** Column `i` is pinned to the constant of one of its equalities. */
  ghost predicate Pinned(meta: IndexMeta, conds: seq<Condition>, i: nat, lo: int, hi: int)
    requires i < |meta.cols|
  {
    lo == hi && exists c :: c in conds && IsEq(c, meta.cols[i]) && c.val == lo
  }

  /** Column `i` has no equality; its ends are the tightest range constants, or sentinels without any. */
  ghost predicate Ranged(meta: IndexMeta, conds: seq<Condition>, i: nat, lo: int, hi: int)
    requires i < |meta.cols| == |meta.radices|
  {
    && (forall c :: c in conds ==> !IsEq(c, meta.cols[i]))
    && (forall c :: c in conds && IsLower(c, meta.cols[i]) ==> c.val <= lo)
    && (forall c :: c in conds && IsUpper(c, meta.cols[i]) ==> hi <= c.val)
    && (lo == 0 || exists c :: c in conds && IsLower(c, meta.cols[i]) && c.val == lo)
    && (hi + 1 == meta.radices[i] || exists c :: c in conds && IsUpper(c, meta.cols[i]) && c.val == hi)
  }

  ghost predicate Free(meta: IndexMeta, i: nat, lo: int, hi: int)
    requires i < |meta.radices|
  {
    lo == 0 && hi + 1 == meta.radices[i]
  }

  /** The first column from `start` on without an equality. */
  function Prefix(meta: IndexMeta, conds: seq<Condition>, start: nat): (n: nat)
    requires start <= |meta.cols|
    ensures start <= n <= |meta.cols|
    decreases |meta.cols| - start
  {
    if start == |meta.cols| || LastEq(conds, meta.cols[start]) == None then start else Prefix(meta, conds, start + 1)
  }

  /** The lower scan key: equality constants, the lower constant of the first column without one, and
      the least value in all other columns. */
  function LowerKey(meta: IndexMeta, conds: seq<Condition>, start: nat): seq<int>
    requires start <= |meta.cols|
  {
    var n := Prefix(meta, conds, start);
    seq(|meta.cols|, i requires 0 <= i < |meta.cols| =>
      if start <= i < n then Or(LastEq(conds, meta.cols[i]), 0)
      else if i == n then Or(MaxLower(conds, meta.cols[i]), 0)
      else 0)
  }

  function UpperKey(meta: IndexMeta, conds: seq<Condition>, start: nat): seq<int>
    requires start <= |meta.cols| == |meta.radices|
  {
    var n := Prefix(meta, conds, start);
    seq(|meta.cols|, i requires 0 <= i < |meta.cols| =>
      if start <= i < n then Or(LastEq(conds, meta.cols[i]), 0)
      else if i == n then Or(MinUpper(conds, meta.cols[i]), Greatest(meta.radices[i]))
      else Greatest(meta.radices[i]))
  }

  function Greatest(radix: nat): int {
    radix - 1
  }

  function Or(o: Option<int>, d: int): int {
    if o.Some? then o.value else d
  }

  /** Builds the two scan keys in place. */
  method BuildKeys(meta: IndexMeta, conds: seq<Condition>, start: nat) returns (lower: seq<int>, upper: seq<int>)
    requires ValidMeta(meta) && start <= |meta.cols|
    ensures lower == LowerKey(meta, conds, start) && upper == UpperKey(meta, conds, start)
  {
    lower := seq(|meta.cols|, _ => 0);
    upper := seq(|meta.cols|, i requires 0 <= i < |meta.radices| => meta.radices[i] - 1);
    var n := start;
    while n < |meta.cols|
      invariant start <= n <= |meta.cols| && |lower| == |upper| == |meta.cols|
      invariant Prefix(meta, conds, start) == Prefix(meta, conds, n)
      invariant forall i :: start <= i < n ==> lower[i] == upper[i] == Or(LastEq(conds, meta.cols[i]), 0)
      invariant forall i :: 0 <= i < start || n <= i < |meta.cols| ==> lower[i] == 0 && upper[i] == meta.radices[i] - 1
    {
      var eq, lo, hi := FindColumnConds(meta.cols[n], conds);
      if eq.Some? {
        lower, upper := lower[n := eq.value], upper[n := eq.value];
        n := n + 1;
        continue;
      }
      if lo.Some? {
        lower := lower[n := lo.value];
      }
      if hi.Some? {
        upper := upper[n := hi.value];
      }
      break;
    }
    assert n == Prefix(meta, conds, start);
  }

  /** The shape of the keys, and that they enclose the key of every record that meets the conditions,
      from column `start` on. */
  lemma KeysEnclose(meta: IndexMeta, conds: seq<Condition>, start: nat)
    requires ValidMeta(meta) && start <= |meta.cols| && Typed(conds, meta)
    ensures var lower, upper, n :=
              LowerKey(meta, conds, start), UpperKey(meta, conds, start), Prefix(meta, conds, start);
            && InRange(lower, meta.radices) && InRange(upper, meta.radices)
            && (forall i :: start <= i < n ==> Pinned(meta, conds, i, lower[i], upper[i]))
            && (n < |meta.cols| ==> Ranged(meta, conds, n, lower[n], upper[n]))
            && (forall i :: 0 <= i < start || n < i < |meta.cols| ==> Free(meta, i, lower[i], upper[i]))
            && forall rec :: Matches(rec, meta, conds) ==>
                 LexLeq(lower[start..], MakeKey(rec, meta)[start..])
                     && LexLeq(MakeKey(rec, meta)[start..], upper[start..])
  {
    var lower, upper, n := LowerKey(meta, conds, start), UpperKey(meta, conds, start), Prefix(meta, conds, start);
    PrefixIs(meta, conds, start);
    forall i | 0 <= i < |meta.cols|
      ensures Bounded(meta, conds, i, lower[i], upper[i])
      ensures start <= i < n ==> Pinned(meta, conds, i, lower[i], upper[i])
      ensures i == n ==> Ranged(meta, conds, i, lower[i], upper[i])
    {
      ColumnKeys(meta, conds, start, i);
    }
    forall i | 0 <= i < |meta.cols| ensures 0 <= lower[i] < meta.radices[i] && 0 <= upper[i] < meta.radices[i] {
      assert Bounded(meta, conds, i, lower[i], upper[i]);
    }
    forall rec | Matches(rec, meta, conds)
      ensures LexLeq(lower[start..], MakeKey(rec, meta)[start..]) && LexLeq(MakeKey(rec, meta)[start..], upper[start..])
    {
      AllBetween(rec, meta, conds, lower, upper, start);
    }
  }

  lemma {:induction false} PrefixIs(meta: IndexMeta, conds: seq<Condition>, start: nat)
    requires start <= |meta.cols|
    ensures forall i :: start <= i < Prefix(meta, conds, start) ==> LastEq(conds, meta.cols[i]).Some?
    ensures Prefix(meta, conds, start) < |meta.cols| ==> LastEq(conds, meta.cols[Prefix(meta, conds, start)]) == None
    decreases |meta.cols| - start
  {
    if start < |meta.cols| && LastEq(conds, meta.cols[start]).Some? {
      PrefixIs(meta, conds, start + 1);
    }
  }

  lemma ColumnKeys(meta: IndexMeta, conds: seq<Condition>, start: nat, i: nat)
    requires ValidMeta(meta) && start <= |meta.cols| && Typed(conds, meta) && i < |meta.cols|
    ensures var lo, hi, n :=
              LowerKey(meta, conds, start)[i], UpperKey(meta, conds, start)[i], Prefix(meta, conds, start);
            && Bounded(meta, conds, i, lo, hi)
            && (start <= i < n ==> Pinned(meta, conds, i, lo, hi))
            && (i == n ==> Ranged(meta, conds, i, lo, hi))
  {
    PrefixIs(meta, conds, start);
    var col, n := meta.cols[i], Prefix(meta, conds, start);
    ColumnConsts(conds, col);
    assert Bounded(meta, conds, i, 0, meta.radices[i] - 1);
    if start <= i < n {
      EqBinds(meta, conds, i, LastEq(conds, col).value);
    } else if i == n {
      var lo, hi := MaxLower(conds, col), MinUpper(conds, col);
      if lo.Some? { LowerBinds(meta, conds, i, lo.value, meta.radices[i] - 1); }
      if hi.Some? { UpperBinds(meta, conds, i, Or(lo, 0), hi.value); }
    }
  }

  lemma AllBetween(rec: Record, meta: IndexMeta, conds: seq<Condition>, lower: seq<int>, upper: seq<int>, start: nat)
    requires Matches(rec, meta, conds) && |lower| == |upper| == |meta.cols| && start <= |meta.cols|
    requires forall i :: 0 <= i < |meta.cols| ==> Bounded(meta, conds, i, lower[i], upper[i])
    ensures LexLeq(lower[start..], MakeKey(rec, meta)[start..]) && LexLeq(MakeKey(rec, meta)[start..], upper[start..])
  {
    var key := MakeKey(rec, meta);
    forall i | 0 <= i < |key| ensures lower[i] <= key[i] <= upper[i] {
      assert Bounded(meta, conds, i, lower[i], upper[i]);
    }
    LexPointwise(lower[start..], key[start..]);
    LexPointwise(key[start..], upper[start..]);
  }

  lemma EqBinds(meta: IndexMeta, conds: seq<Condition>, n: nat, v: int)
    requires n < |meta.cols| && Typed(conds, meta)
    requires exists c :: c in conds && IsEq(c, meta.cols[n]) && c.val == v
    ensures Bounded(meta, conds, n, v, v)
  {
    var c :| c in conds && IsEq(c, meta.cols[n]) && c.val == v;
    forall rec | Matches(rec, meta, conds) ensures MakeKey(rec, meta)[n] == v { assert Eval(rec, c); }
  }

  lemma LowerBinds(meta: IndexMeta, conds: seq<Condition>, n: nat, v: int, hi: int)
    requires n < |meta.cols| && Typed(conds, meta) && (exists lo :: Bounded(meta, conds, n, lo, hi))
    requires exists c :: c in conds && IsLower(c, meta.cols[n]) && c.val == v
    ensures Bounded(meta, conds, n, v, hi)
  {
    var c :| c in conds && IsLower(c, meta.cols[n]) && c.val == v;
    forall rec | Matches(rec, meta, conds) ensures v <= MakeKey(rec, meta)[n] <= hi { assert Eval(rec, c); }
  }

  lemma UpperBinds(meta: IndexMeta, conds: seq<Condition>, n: nat, lo: int, v: int)
    requires n < |meta.cols| && Typed(conds, meta) && (exists hi :: Bounded(meta, conds, n, lo, hi))
    requires exists c :: c in conds && IsUpper(c, meta.cols[n]) && c.val == v
    ensures Bounded(meta, conds, n, lo, v)
  {
    var c :| c in conds && IsUpper(c, meta.cols[n]) && c.val == v;
    forall rec | Matches(rec, meta, conds) ensures lo <= MakeKey(rec, meta)[n] <= v { assert Eval(rec, c); }
  }

  // ---------------------------------------------------------------- candidates and recheck

  /** The table as the statement's snapshot sees it. */
  type Table = map<Ix.Rid, Record>

  ghost predicate Scannable(rows: Table, conds: seq<Condition>) {
    forall rid :: rid in rows ==> AllBound(rows[rid], conds)
  }

  /** `advance_to_next_valid` over all candidates: those whose visible record meets every condition. */
  method Recheck(candidates: seq<Ix.Rid>, rows: Table, conds: seq<Condition>) returns (out: seq<Ix.Rid>)
    requires Scannable(rows, conds)
    ensures forall rid :: rid in out <==> rid in candidates && rid in rows && Holds(rows[rid], conds)
    ensures NoRepeats(candidates) ==> NoRepeats(out)
  {
    out := [];
    var i := 0;
    while i < |candidates|
      invariant 0 <= i <= |candidates|
      invariant forall rid :: rid in out <==> rid in candidates[..i] && rid in rows && Holds(rows[rid], conds)
      invariant NoRepeats(candidates) ==> NoRepeats(out)
    {
      var rid := candidates[i];
      assert candidates[..i + 1] == candidates[..i] + [rid];
      if rid in rows {
        var ok := EvalConds(rows[rid], conds);
        if ok {
          out := out + [rid];
        }
      }
      i := i + 1;
    }
    assert candidates[..i] == candidates;
  }

  lemma KeyInRange(rec: Record, meta: IndexMeta)
    requires Fits(rec, meta)
    ensures InRange(MakeKey(rec, meta), meta.radices)
  {
  }

  lemma {:induction false} LeqRanks(a: seq<int>, b: seq<int>, radices: seq<nat>)
    requires InRange(a, radices) && InRange(b, radices) && LexLeq(a, b)
    ensures Rank(a, radices) <= Rank(b, radices)
  {
    RankOrder(a, b, radices);
  }

  // ---------------------------------------------------------------- what the scan sees of the others

  /** The snapshot's table: the rows it sees, indexed in its versions under the keys they have. */
  ghost predicate SnapshotIs(s: M.State, r: nat, rows: Table, meta: IndexMeta) {
    && (forall rid {:trigger rid in rows} :: rid in rows ==>
        Fits(rows[rid], meta) && M.Needs(s, r, Rank(MakeKey(rows[rid], meta), meta.radices), rid))
    && (forall k, rid {:trigger M.Needs(s, r, k, rid)} :: M.Needs(s, r, k, rid) ==> rid in rows)
  }

  /** A run of the protocol that accounts for a scan: the reader, its snapshot, and the moments of the
      rounds. */
  datatype Story = Story(states: seq<M.State>, id: int, r: nat, start: nat, moments: seq<B.Moments>)

  ghost predicate Reads(y: Story, rows: Table, meta: IndexMeta, epoch: nat) {
    && M.Run(y.states) && y.start < |y.states| && epoch == y.states[y.start].epoch
    && (forall t {:trigger y.states[t]} :: y.start <= t < |y.states| ==>
        y.id in y.states[t].readers && y.states[t].readers[y.id] == y.r)
    && SnapshotIs(y.states[y.start], y.r, rows, meta)
  }

  /** The registry lookup and the epoch of round `i` are those of its moments. */
  ghost predicate RoundAt(y: Story, keys: iset<Ix.Key>, stale: seq<Ix.Rid>, after: nat, i: int)
    requires 0 <= i < |y.moments|
  {
    && B.InOrder(y.states, y.moments[i]) && B.Since(y.start, y.moments, i) <= y.moments[i].begin
    && (forall k, rid {:trigger M.InStale(y.states[y.moments[i].registry], y.r, k, rid)} ::
          k in keys && M.InStale(y.states[y.moments[i].registry], y.r, k, rid) ==> rid in stale)
    && after == y.states[y.moments[i].end].epoch
  }

  /** The contents are those of some moment between the start of round `i` and its registry lookup. */
  ghost predicate MetAt(y: Story, i: int, m: map<Ix.Key, Ix.Rid>)
    requires 0 <= i < |y.moments|
  {
    exists t {:trigger y.states[t]} ::
        y.moments[i].begin <= t <= y.moments[i].registry && t < |y.states| && y.states[t].tree == m
  }

  /** RIDs are pairs of 32-bit numbers. */
  ghost predicate RidsFit(y: Story, rounds: seq<B.Round>) {
    && (forall t, k {:trigger k in y.states[t].tree} :: 0 <= t < |y.states| && k in y.states[t].tree ==>
        B.Narrow(y.states[t].tree[k]))
    && (forall i {:trigger rounds[i]} :: 0 <= i < |rounds| ==> B.AllNarrow(rounds[i].stale))
  }

  ghost predicate Explains(y: Story, rows: Table, meta: IndexMeta, keys: iset<Ix.Key>, epoch: nat, rounds: seq<B.Round>,
                           seen: seq<B.Seen>) {
    && Reads(y, rows, meta, epoch) && RidsFit(y, rounds) && |y.moments| == |seen| <= |rounds|
    && forall i {:trigger seen[i]} :: 0 <= i < |seen| ==>
         RoundAt(y, keys, rounds[i].stale, rounds[i].after, i) && MetAt(y, i, seen[i].begin) && MetAt(y, i, seen[i].end)
  }

  // ---------------------------------------------------------------- index scan

  function ScanLow(meta: IndexMeta, conds: seq<Condition>): int
    requires ValidMeta(meta)
  {
    Rank(LowerKey(meta, conds, 0), meta.radices)
  }

  function ScanHigh(meta: IndexMeta, conds: seq<Condition>): int
    requires ValidMeta(meta)
  {
    Rank(UpperKey(meta, conds, 0), meta.radices)
  }

  ghost function ScanRange(meta: IndexMeta, conds: seq<Condition>): iset<Ix.Key>
    requires ValidMeta(meta)
  {
    B.Range(ScanLow(meta, conds), ScanHigh(meta, conds))
  }

  lemma MatchesInRange(rec: Record, meta: IndexMeta, conds: seq<Condition>)
    requires ValidMeta(meta) && Typed(conds, meta) && Matches(rec, meta, conds)
    ensures ScanLow(meta, conds) <= Rank(MakeKey(rec, meta), meta.radices) <= ScanHigh(meta, conds)
  {
    var lower, upper, key := LowerKey(meta, conds, 0), UpperKey(meta, conds, 0), MakeKey(rec, meta);
    KeysEnclose(meta, conds, 0);
    assert lower[0..] == lower && upper[0..] == upper && key[0..] == key;
    KeyInRange(rec, meta);
    LeqRanks(lower, key, meta.radices);
    LeqRanks(key, upper, meta.radices);
  }

  /** An index scan under concurrent writers. In every run of the protocol that accounts for what it
      met, it returns each row at most once and, once a round has left the handoff epoch alone,
      exactly the rows of the snapshot that meet the conditions. */
  method IndexScan(ih: IxIndexHandle, meta: IndexMeta, rows: Table, conds: seq<Condition>, epoch: nat,
                   rounds: seq<B.Round>)
      returns (out: seq<Ix.Rid>, done: bool, ghost seen: seq<B.Seen>)
    requires ih.Valid() && ValidMeta(meta) && Typed(conds, meta) && Scannable(rows, conds)
    modifies ih
    ensures ih.Valid() && |seen| <= |rounds|
    ensures if done then 0 < |seen|
            && rounds[|seen| - 1].after == B.Handoff(epoch, rounds, |seen| - 1) else |seen| == |rounds|
    ensures forall rid :: rid in out ==> rid in rows && Holds(rows[rid], conds)
    ensures forall y: Story {:trigger Explains(y, rows, meta, ScanRange(meta, conds), epoch, rounds, seen)} ::
              Explains(y, rows, meta, ScanRange(meta, conds), epoch, rounds, seen) ==>
                NoRepeats(out) && (done ==> forall rid :: rid in rows && Holds(rows[rid], conds) ==> rid in out)
  {
    var lower, upper := BuildKeys(meta, conds, 0);
    var lo, hi := Rank(lower, meta.radices), Rank(upper, meta.radices);
    var candidates;
    ghost var passes, ats;
    candidates, done, seen, passes, ats := B.CollectCandidates(ih, lo, hi, lower == upper, epoch, rounds);
    out := Recheck(candidates, rows, conds);
    forall y: Story | Explains(y, rows, meta, ScanRange(meta, conds), epoch, rounds, seen)
      ensures NoRepeats(out) && (done ==> forall rid :: rid in rows && Holds(rows[rid], conds) ==> rid in out)
    {
      ScanIsExact(y, meta, rows, conds, epoch, rounds, seen, passes, ats, candidates, done);
    }
  }

  lemma IsWitnessed(y: Story, rows: Table, meta: IndexMeta, lo: Ix.Key, hi: Ix.Key, epoch: nat, rounds: seq<B.Round>,
                    seen: seq<B.Seen>,
                    passes: seq<B.Pass>, ats: seq<seq<Ix.Key>>)
    requires Explains(y, rows, meta, B.Range(lo, hi), epoch, rounds, seen)
             && B.Passed(passes, rounds, seen, ats, lo, hi)
    ensures B.Witnessed(y.states, y.id, y.r, B.Range(lo, hi), y.start, passes, y.moments)
  {
    var keys := B.Range(lo, hi);
    forall i | 0 <= i < |passes| ensures B.PassOk(y.states, y.r, keys, y.start, passes, y.moments, i) {
      var m := y.moments[i];
      assert RoundAt(y, keys, rounds[i].stale, rounds[i].after, i) && MetAt(y, i, seen[i].begin);
      var t :| m.begin <= t <= m.registry && t < |y.states| && y.states[t].tree == seen[i].begin;
      forall k | k in keys ensures B.TreeSeen(y.states, m.begin, m.registry, k, passes[i].tree) {
        assert k in y.states[t].tree ==> y.states[t].tree[k] in passes[i].tree;
      }
    }
  }

  /** No row is a candidate twice: it is in the tree under one key at a time. */
  lemma MetOnce(y: Story, meta: IndexMeta, rows: Table, lo: Ix.Key, hi: Ix.Key, epoch: nat, rounds: seq<B.Round>,
                seen: seq<B.Seen>, passes: seq<B.Pass>, ats: seq<seq<Ix.Key>>, candidates: seq<Ix.Rid>)
    requires Explains(y, rows, meta, B.Range(lo, hi), epoch, rounds, seen)
    requires B.Passed(passes, rounds, seen, ats, lo, hi) && B.Gathered(candidates, passes)
    ensures NoRepeats(candidates)
  {
    if |passes| > 0 {
      assert MetAt(y, 0, seen[0].end);
      var t :| y.moments[0].begin <= t <= y.moments[0].registry && t < |y.states| && y.states[t].tree == seen[0].end;
      B.ListedOnce(y.states, t, ats[0], passes[0].tree);
    }
  }

  /** When the last round has left the epoch alone, every row of the snapshot in the range is a candidate. */
  lemma RangeIsMet(y: Story, meta: IndexMeta, rows: Table, lo: Ix.Key, hi: Ix.Key, epoch: nat, rounds: seq<B.Round>,
                   seen: seq<B.Seen>, passes: seq<B.Pass>, ats: seq<seq<Ix.Key>>, candidates: seq<Ix.Rid>, rid: Ix.Rid)
    requires Explains(y, rows, meta, B.Range(lo, hi), epoch, rounds, seen)
    requires B.Passed(passes, rounds, seen, ats, lo, hi) && B.Gathered(candidates, passes)
    requires 0 < |seen| && rounds[|seen| - 1].after == B.Handoff(epoch, rounds, |seen| - 1)
    requires rid in rows && Fits(rows[rid], meta) && lo <= Rank(MakeKey(rows[rid], meta), meta.radices) <= hi
    ensures rid in candidates
  {
    LastRoundMeets(y, meta, rows, lo, hi, epoch, rounds, seen, passes, ats, rid);
    assert B.Met(passes, |passes|, rid);
    PassesFit(y, meta, rows, lo, hi, epoch, rounds, seen, passes, ats);
  }

  lemma LastRoundMeets(y: Story, meta: IndexMeta, rows: Table, lo: Ix.Key, hi: Ix.Key, epoch: nat, rounds: seq<B.Round>,
                       seen: seq<B.Seen>, passes: seq<B.Pass>, ats: seq<seq<Ix.Key>>, rid: Ix.Rid)
    requires Explains(y, rows, meta, B.Range(lo, hi), epoch, rounds, seen)
    requires B.Passed(passes, rounds, seen, ats, lo, hi)
    requires 0 < |seen| && rounds[|seen| - 1].after == B.Handoff(epoch, rounds, |seen| - 1)
    requires rid in rows && Fits(rows[rid], meta) && lo <= Rank(MakeKey(rows[rid], meta), meta.radices) <= hi
    ensures |passes| > 0 && (rid in passes[|passes| - 1].tree || rid in passes[|passes| - 1].stale)
  {
    IsWitnessed(y, rows, meta, lo, hi, epoch, rounds, seen, passes, ats);
    var k, last := Rank(MakeKey(rows[rid], meta), meta.radices), |passes| - 1;
    assert M.Needs(y.states[y.start], y.r, k, rid);
    assert B.Before(y.states[y.start].epoch, passes, last) == B.Handoff(epoch, rounds, last);
    B.StablePassIsComplete(y.states, y.id, y.r, B.Range(lo, hi), y.start, passes, y.moments, last, k, rid);
  }

  lemma PassesFit(y: Story, meta: IndexMeta, rows: Table, lo: Ix.Key, hi: Ix.Key, epoch: nat, rounds: seq<B.Round>,
                  seen: seq<B.Seen>, passes: seq<B.Pass>, ats: seq<seq<Ix.Key>>)
    requires Explains(y, rows, meta, B.Range(lo, hi), epoch, rounds, seen)
             && B.Passed(passes, rounds, seen, ats, lo, hi)
    ensures B.PassesNarrow(passes)
  {
    forall i | 0 <= i < |passes| ensures B.AllNarrow(passes[i].tree) && B.AllNarrow(passes[i].stale) {
      assert MetAt(y, i, seen[i].end);
      var t :| y.moments[i].begin <= t <= y.moments[i].registry && t < |y.states| && y.states[t].tree == seen[i].end;
      assert 0 <= t by { assert RoundAt(y, B.Range(lo, hi), rounds[i].stale, rounds[i].after, i); }
      forall rid | rid in passes[i].tree ensures B.Narrow(rid) {
        var j :| 0 <= j < |passes[i].tree| && passes[i].tree[j] == rid;
        var k := ats[i][j];
        assert k in y.states[t].tree && y.states[t].tree[k] == rid;
      }
    }
  }

  lemma ScanIsExact(y: Story, meta: IndexMeta, rows: Table, conds: seq<Condition>, epoch: nat, rounds: seq<B.Round>,
                    seen: seq<B.Seen>,
                    passes: seq<B.Pass>, ats: seq<seq<Ix.Key>>, candidates: seq<Ix.Rid>, done: bool)
    requires ValidMeta(meta) && Typed(conds, meta) && Scannable(rows, conds)
    requires Explains(y, rows, meta, ScanRange(meta, conds), epoch, rounds, seen)
    requires B.Passed(passes, rounds, seen, ats, ScanLow(meta, conds), ScanHigh(meta, conds))
    requires B.Gathered(candidates, passes)
    requires done ==> 0 < |seen| && rounds[|seen| - 1].after == B.Handoff(epoch, rounds, |seen| - 1)
    ensures NoRepeats(candidates)
    ensures done ==> forall rid :: rid in rows && Holds(rows[rid], conds) ==> rid in candidates
  {
    var lo, hi := ScanLow(meta, conds), ScanHigh(meta, conds);
    MetOnce(y, meta, rows, lo, hi, epoch, rounds, seen, passes, ats, candidates);
    if done {
      forall rid | rid in rows && Holds(rows[rid], conds) ensures rid in candidates {
        assert SnapshotIs(y.states[y.start], y.r, rows, meta);
        assert Matches(rows[rid], meta, conds);
        MatchesInRange(rows[rid], meta, conds);
        RangeIsMet(y, meta, rows, lo, hi, epoch, rounds, seen, passes, ats, candidates, rid);
      }
    }
  }

  // ---------------------------------------------------------------- the probe of an index join

  /** The rows with this value in the column of a one-column index. */
  ghost predicate HasValue(rows: Table, meta: IndexMeta, rid: Ix.Rid, v: int)
    requires |meta.cols| == 1
  {
    rid in rows && Fits(rows[rid], meta) && rows[rid][meta.cols[0]] == v
  }

  /** `open_probe` on an index over one column: the candidates for one value of the outer row. In every
      run of the protocol that accounts for it they do not repeat and, once a round has left the
      handoff epoch alone, include every row of the snapshot with that value. */
  method OpenProbe(ih: IxIndexHandle, meta: IndexMeta, ghost rows: Table, v: int, epoch: nat, rounds: seq<B.Round>)
      returns (candidates: seq<Ix.Rid>, done: bool, ghost seen: seq<B.Seen>)
    requires ih.Valid() && ValidMeta(meta) && |meta.cols| == 1
    modifies ih
    ensures ih.Valid() && |seen| <= |rounds|
    ensures if done then 0 < |seen|
            && rounds[|seen| - 1].after == B.Handoff(epoch, rounds, |seen| - 1) else |seen| == |rounds|
    ensures forall y: Story {:trigger Explains(y, rows, meta, B.Range(v, v), epoch, rounds, seen)} ::
              Explains(y, rows, meta, B.Range(v, v), epoch, rounds, seen) ==>
                NoRepeats(candidates) && (done ==> forall rid :: HasValue(rows, meta, rid, v) ==> rid in candidates)
  {
    ghost var passes, ats;
    candidates, done, seen, passes, ats := B.CollectCandidates(ih, v, v, true, epoch, rounds);
    forall y: Story | Explains(y, rows, meta, B.Range(v, v), epoch, rounds, seen)
      ensures NoRepeats(candidates) && (done ==> forall rid :: HasValue(rows, meta, rid, v) ==> rid in candidates)
    {
      ProbeIsComplete(y, meta, rows, v, epoch, rounds, seen, passes, ats, candidates, done);
    }
  }

  lemma ProbeIsComplete(y: Story, meta: IndexMeta, rows: Table, v: int, epoch: nat, rounds: seq<B.Round>,
                        seen: seq<B.Seen>,
                        passes: seq<B.Pass>, ats: seq<seq<Ix.Key>>, candidates: seq<Ix.Rid>, done: bool)
    requires ValidMeta(meta) && |meta.cols| == 1 && Explains(y, rows, meta, B.Range(v, v), epoch, rounds, seen)
    requires B.Passed(passes, rounds, seen, ats, v, v) && B.Gathered(candidates, passes)
    requires done ==> 0 < |seen| && rounds[|seen| - 1].after == B.Handoff(epoch, rounds, |seen| - 1)
    ensures NoRepeats(candidates) && (done ==> forall rid :: HasValue(rows, meta, rid, v) ==> rid in candidates)
  {
    MetOnce(y, meta, rows, v, v, epoch, rounds, seen, passes, ats, candidates);
    if done {
      forall rid | HasValue(rows, meta, rid, v) ensures rid in candidates {
        assert MakeKey(rows[rid], meta) == [v];
        RangeIsMet(y, meta, rows, v, v, epoch, rounds, seen, passes, ats, candidates, rid);
      }
    }
  }

  // ---------------------------------------------------------------- skip scan

  /** Number of suffixes, and the ranks of the suffix bounds. */
  function SuffixCount(meta: IndexMeta): nat
    requires ValidMeta(meta)
  {
    Weight(meta.radices[1..])
  }

  function SuffixLow(meta: IndexMeta, conds: seq<Condition>): int
    requires ValidMeta(meta)
  {
    Rank(LowerKey(meta, conds, 1)[1..], meta.radices[1..])
  }

  function SuffixHigh(meta: IndexMeta, conds: seq<Condition>): int
    requires ValidMeta(meta)
  {
    Rank(UpperKey(meta, conds, 1)[1..], meta.radices[1..])
  }

  predicate Covered(meta: IndexMeta, conds: seq<Condition>, k: Ix.Key)
    requires ValidMeta(meta) && SuffixCount(meta) > 0
  {
    0 <= k && SuffixLow(meta, conds) <= K.Suffix(k, SuffixCount(meta)) <= SuffixHigh(meta, conds)
  }

  /** The keys a skip scan answers for: any leading value, the suffix within bounds. */
  ghost function SkipRange(meta: IndexMeta, conds: seq<Condition>): iset<Ix.Key>
    requires ValidMeta(meta) && SuffixCount(meta) > 0
  {
    iset k | Covered(meta, conds, k)
  }

  lemma SuffixBounds(meta: IndexMeta, conds: seq<Condition>)
    requires ValidMeta(meta) && Typed(conds, meta)
    ensures SuffixCount(meta) > 0 && 0 <= SuffixLow(meta, conds) < SuffixCount(meta)
            && 0 <= SuffixHigh(meta, conds) < SuffixCount(meta)
  {
    KeysEnclose(meta, conds, 1);
    var rest := meta.radices[1..];
    var lower, upper := LowerKey(meta, conds, 1)[1..], UpperKey(meta, conds, 1)[1..];
    assert InRange(lower, rest) && InRange(upper, rest);
    RankBounds(lower, rest);
    RankBounds(upper, rest);
  }

  lemma MatchesCovered(rec: Record, meta: IndexMeta, conds: seq<Condition>)
    requires ValidMeta(meta) && Typed(conds, meta) && Matches(rec, meta, conds) && SuffixCount(meta) > 0
    ensures Covered(meta, conds, Rank(MakeKey(rec, meta), meta.radices))
  {
    var rest, key := meta.radices[1..], MakeKey(rec, meta);
    var lower, upper := LowerKey(meta, conds, 1), UpperKey(meta, conds, 1);
    KeysEnclose(meta, conds, 1);
    KeyInRange(rec, meta);
    RankBounds(key, meta.radices);
    RankLeading(key, meta.radices);
    assert InRange(lower[1..], rest) && InRange(upper[1..], rest) && InRange(key[1..], rest);
    LeqRanks(lower[1..], key[1..], rest);
    LeqRanks(key[1..], upper[1..], rest);
  }

  /** All contents the tree phase of round `i` met are those of moments of the round. */
  ghost predicate AllMetAt(y: Story, i: int, hist: seq<map<Ix.Key, Ix.Rid>>)
    requires 0 <= i < |y.moments|
  {
    forall j {:trigger hist[j]} :: 0 <= j < |hist| ==> MetAt(y, i, hist[j])
  }

  ghost predicate ExplainsSkip(y: Story, rows: Table, meta: IndexMeta, keys: iset<Ix.Key>, epoch: nat,
                               rounds: seq<B.SkipRound>, seen: seq<seq<map<Ix.Key, Ix.Rid>>>) {
    && Reads(y, rows, meta, epoch) && |y.moments| == |seen| <= |rounds|
    && forall i {:trigger seen[i]} :: 0 <= i < |seen| ==>
        RoundAt(y, keys, rounds[i].stale, rounds[i].after, i) && AllMetAt(y, i, seen[i])
  }

  /** A skip scan under concurrent writers, with its fallback to the heap. With the fallback it returns
      exactly the rows of the snapshot that meet the conditions; without it, it does so in every run
      of the protocol that accounts for what it met. No row comes twice. `heap` is the order in which
      the heap file lists the rows. */
  method SkipScanTable(ih: IxIndexHandle, meta: IndexMeta, rows: Table, conds: seq<Condition>, heap: seq<Ix.Rid>,
                       maxPrefixes: nat, maxCandidates: nat, epoch: nat, rounds: seq<B.SkipRound>)
      returns (out: seq<Ix.Rid>, fallback: bool, done: bool, ghost seen: seq<seq<map<Ix.Key, Ix.Rid>>>)
    requires ih.Valid() && ValidMeta(meta) && Typed(conds, meta) && Scannable(rows, conds)
    requires NoRepeats(heap) && forall rid :: rid in rows ==> rid in heap
    modifies ih
    ensures ih.Valid() && |seen| <= |rounds| && NoRepeats(out) && SuffixCount(meta) > 0
    ensures done ==> 0 < |seen| && rounds[|seen| - 1].after == B.SkipHandoff(epoch, rounds, |seen| - 1)
    ensures !done && !fallback ==> |seen| == |rounds|
    ensures forall rid :: rid in out ==> rid in rows && Holds(rows[rid], conds)
    ensures fallback ==> forall rid :: rid in rows && Holds(rows[rid], conds) ==> rid in out
    ensures done ==> forall y: Story {:trigger ExplainsSkip(y, rows, meta, SkipRange(meta, conds), epoch, rounds,
                                                            seen)} ::
              ExplainsSkip(y, rows, meta, SkipRange(meta, conds), epoch, rounds, seen) ==>
                forall rid :: rid in rows && Holds(rows[rid], conds) ==> rid in out
  {
    SuffixBounds(meta, conds);
    var lower, upper := BuildKeys(meta, conds, 1);
    var w, loS, hiS := Weight(meta.radices[1..]), Rank(lower[1..], meta.radices[1..]),
        Rank(upper[1..], meta.radices[1..]);
    var rids;
    ghost var passes;
    rids, fallback, done, seen, passes :=
        B.CollectSkipScanCandidates(ih, w, loS, hiS, maxPrefixes, maxCandidates, epoch, rounds, SkipRange(meta, conds));
    if fallback {
      out := Recheck(heap, rows, conds);
      return;
    }
    out := Recheck(rids, rows, conds);
    if done {
      forall y: Story | ExplainsSkip(y, rows, meta, SkipRange(meta, conds), epoch, rounds, seen)
        ensures forall rid :: rid in rows && Holds(rows[rid], conds) ==> rid in out
      {
        SkipIsExact(y, meta, rows, conds, epoch, rounds, seen, passes, rids);
      }
    }
  }

  lemma SkipIsWitnessed(y: Story, rows: Table, meta: IndexMeta, keys: iset<Ix.Key>, epoch: nat,
                        rounds: seq<B.SkipRound>,
                        seen: seq<seq<map<Ix.Key, Ix.Rid>>>, passes: seq<B.Pass>)
    requires ExplainsSkip(y, rows, meta, keys, epoch, rounds, seen) && B.SkipPassed(passes, rounds, seen, keys)
    ensures B.Witnessed(y.states, y.id, y.r, keys, y.start, passes, y.moments)
  {
    forall i | 0 <= i < |passes| ensures B.PassOk(y.states, y.r, keys, y.start, passes, y.moments, i) {
      var m := y.moments[i];
      assert RoundAt(y, keys, rounds[i].stale, rounds[i].after, i) && AllMetAt(y, i, seen[i]);
      forall k | k in keys ensures B.TreeSeen(y.states, m.begin, m.registry, k, passes[i].tree) {
        assert K.Settled(seen[i], passes[i].tree, k);
        var j :| 0 <= j < |seen[i]| && (k in seen[i][j] ==> seen[i][j][k] in passes[i].tree);
        assert MetAt(y, i, seen[i][j]);
        var t :| m.begin <= t <= m.registry && t < |y.states| && y.states[t].tree == seen[i][j];
      }
    }
  }

  lemma SkipIsExact(y: Story, meta: IndexMeta, rows: Table, conds: seq<Condition>, epoch: nat, rounds: seq<B.SkipRound>,
                    seen: seq<seq<map<Ix.Key, Ix.Rid>>>, passes: seq<B.Pass>, rids: seq<Ix.Rid>)
    requires ValidMeta(meta) && Typed(conds, meta) && Scannable(rows, conds) && SuffixCount(meta) > 0
    requires ExplainsSkip(y, rows, meta, SkipRange(meta, conds), epoch, rounds, seen)
             && B.SkipPassed(passes, rounds, seen, SkipRange(meta, conds))
    requires forall rid :: rid in rids <==> B.Met(passes, |passes|, rid)
    requires 0 < |seen| && rounds[|seen| - 1].after == B.SkipHandoff(epoch, rounds, |seen| - 1)
    ensures forall rid :: rid in rows && Holds(rows[rid], conds) ==> rid in rids
  {
    var keys, last := SkipRange(meta, conds), |passes| - 1;
    SkipIsWitnessed(y, rows, meta, keys, epoch, rounds, seen, passes);
    assert B.Before(y.states[y.start].epoch, passes, last) == B.SkipHandoff(epoch, rounds, last);
    forall rid | rid in rows && Holds(rows[rid], conds) ensures rid in rids {
      var k := Rank(MakeKey(rows[rid], meta), meta.radices);
      assert Matches(rows[rid], meta, conds);
      MatchesCovered(rows[rid], meta, conds);
      B.StablePassIsComplete(y.states, y.id, y.r, keys, y.start, passes, y.moments, last, k, rid);
      assert B.Met(passes, |passes|, rid);
    }
  }
}
