/** Readers and writers meeting in one unique index under snapshot reads.

    The tree holds the keys of the current row versions. A writer that re-keys a row first publishes
    the old key in the stale registry and then takes it out of the tree. A commit publishes its rows
    one by one, then stamps its stale entries one by one, and at last moves the visible commit time
    on; commits publish one at a time. An abort puts the old key back into the tree, bumps the handoff
    epoch and only then drops the stale entry. The system below takes these as atomic steps in any
    interleaving. */
module MvccProtocol {

  import opened Basics
  import IxModel

  type Key = int
  type Rid = IxModel.Rid
  type Txn = int

  /** A committed version of a row; no key means the row was deleted. */
  datatype Version = Version(ts: nat, key: Option<Key>)

  /** Registry entry; `retire` is the commit time of the creating transaction, if it committed. */
  datatype Stale = Stale(key: Key, rid: Rid, txn: Txn, retire: Option<nat>)

  /** The active writer of a row: the key the row has in the tree at the moment, whether the writer
      has touched the tree for it yet, and whether its abort has started dropping stale entries. */
  datatype Own = Own(txn: Txn, cur: Option<Key>, moved: bool, done: bool)

  datatype Row = Row(versions: seq<Version>, own: Option<Own>)

  /** The commit whose publication is under way, and its commit time. */
  datatype Publication = Publication(txn: Txn, ts: nat)

  /** `bumped` are the entries whose epoch bump is done and whose removal is not; `last` is the commit
      time new snapshots get. */
  datatype State = State(tree: map<Key, Rid>, stale: set<Stale>, bumped: set<Stale>, epoch: nat, last: nat,
                         rows: map<Rid, Row>, readers: map<int, nat>, pub: Option<Publication>)

  function Latest(row: Row): Option<Key> {
    if row.versions == [] then None else row.versions[|row.versions| - 1].key
  }

  function Current(row: Row): Option<Key> {
    if row.own.Some? then row.own.value.cur else Latest(row)
  }

  /** Key of the version a snapshot at time `r` sees. */
  function KeyAt(versions: seq<Version>, r: nat): Option<Key> {
    if versions == [] then None
    else if versions[|versions| - 1].ts <= r then versions[|versions| - 1].key
    else KeyAt(versions[..|versions| - 1], r)
  }

  /** Snapshot `r` sees row `rid` under key `k`, so its scans have to come across the pair. */
  predicate Needs(s: State, r: nat, k: Key, rid: Rid) {
    rid in s.rows && KeyAt(s.rows[rid].versions, r) == Some(k)
  }

  predicate InTree(s: State, k: Key, rid: Rid) {
    k in s.tree && s.tree[k] == rid
  }

  predicate Shows(e: Stale, r: nat, k: Key, rid: Rid) {
    e.key == k && e.rid == rid && (e.retire == None || e.retire.value > r)
  }

  /** A registry lookup for snapshot `r` returns the pair. */
  predicate InStale(s: State, r: nat, k: Key, rid: Rid) {
    exists e :: e in s.stale && Shows(e, r, k, rid)
  }

  // ---------------------------------------------------------------- steps

  datatype Action =
    | NewRow(rid: Rid, txn: Txn)
    | Acquire(rid: Rid, txn: Txn)
    | AddStale(rid: Rid, txn: Txn)
    | TreeDelete(rid: Rid, txn: Txn)
    | TreeInsert(rid: Rid, txn: Txn, key: Key)
    | CommitBegin(txn: Txn, ts: nat)
    | CommitRow(rid: Rid)
    | CommitStale(entry: Stale)
    | CommitEnd
    | Bump(entry: Stale)
    | Drop(entry: Stale)
    | Release(rid: Rid, txn: Txn)
    | Begin(id: int)
    | End(id: int)
    | Collect(watermark: nat)

  predicate Owns(s: State, rid: Rid, txn: Txn) {
    rid in s.rows && s.rows[rid].own.Some? && s.rows[rid].own.value.txn == txn
  }

  predicate Publishing(s: State, txn: Txn) {
    s.pub.Some? && s.pub.value.txn == txn
  }

  /** The newest version is part of every snapshot taken from now on, which a writer needs: it would
      otherwise overwrite a version its own snapshot does not see. */
  predicate Settled(s: State, row: Row) {
    row.versions == [] || row.versions[|row.versions| - 1].ts <= s.last
  }

  predicate Enabled(s: State, a: Action) {
    match a
    case NewRow(rid, w) => rid !in s.rows && !Publishing(s, w)
    case Acquire(rid, w) => rid in s.rows && s.rows[rid].own == None && Settled(s, s.rows[rid]) && !Publishing(s, w)
    case AddStale(rid, w) => Owns(s, rid, w) && s.rows[rid].own.value.cur.Some? && !s.rows[rid].own.value.done
    case TreeDelete(rid, w) =>
      && Owns(s, rid, w) && s.rows[rid].own.value.cur.Some? && !s.rows[rid].own.value.done
      && (s.rows[rid].own.value.moved || Stale(s.rows[rid].own.value.cur.value, rid, w, None) in s.stale)
    case TreeInsert(rid, w, k) => Owns(s, rid, w) && s.rows[rid].own.value.cur == None && k !in s.tree
        && !s.rows[rid].own.value.done
    case CommitBegin(w, c) => s.pub == None && c > s.last && forall rid :: rid in s.rows && Owns(s, rid, w) ==>
        !s.rows[rid].own.value.done
    case CommitRow(rid) => s.pub.Some? && Owns(s, rid, s.pub.value.txn)
    case CommitStale(e) => s.pub.Some? && AllPublished(s) && e in s.stale && e.txn == s.pub.value.txn
        && e.retire == None
    case CommitEnd => s.pub.Some? && AllPublished(s) && forall e :: e in s.stale && e.txn == s.pub.value.txn ==>
        e.retire.Some?
    case Bump(e) =>
      && e in s.stale && e.retire == None && Owns(s, e.rid, e.txn) && !Publishing(s, e.txn)
      && s.rows[e.rid].own.value.cur == Latest(s.rows[e.rid])
    case Drop(e) => e in s.bumped
    case Release(rid, w) =>
      Owns(s, rid, w) && !Publishing(s, w) && s.rows[rid].own.value.cur == Latest(s.rows[rid]) && forall e ::
          e in s.stale && e.rid == rid ==> e.retire.Some?
    case Begin(id) => id !in s.readers
    case End(id) => id in s.readers
    case Collect(wm) => wm <= s.last && forall id :: id in s.readers ==> wm <= s.readers[id]
  }

  predicate AllPublished(s: State)
    requires s.pub.Some?
  {
    forall rid :: rid in s.rows ==> !Owns(s, rid, s.pub.value.txn)
  }

  function SetOwn(s: State, rid: Rid, own: Option<Own>): State
    requires rid in s.rows
  {
    s.(rows := s.rows[rid := s.rows[rid].(own := own)])
  }

  function Next(s: State, a: Action): State
    requires Enabled(s, a)
  {
    match a
    case NewRow(rid, w) => s.(rows := s.rows[rid := Row([], Some(Own(w, None, true, false)))])
    case Acquire(rid, w) => SetOwn(s, rid, Some(Own(w, Latest(s.rows[rid]), false, false)))
    case AddStale(rid, w) => s.(stale := s.stale + {Stale(s.rows[rid].own.value.cur.value, rid, w, None)})
    case TreeDelete(rid, w) => SetOwn(s, rid, Some(Own(w, None, true, false))).(tree :=
        s.tree - {s.rows[rid].own.value.cur.value})
    case TreeInsert(rid, w, k) => SetOwn(s, rid, Some(Own(w, Some(k), true, false))).(tree := s.tree[k := rid])
    case CommitBegin(w, c) => s.(pub := Some(Publication(w, c)))
    case CommitRow(rid) =>
      s.(rows := s.rows[rid := Row(s.rows[rid].versions + [Version(s.pub.value.ts, s.rows[rid].own.value.cur)], None)])
    case CommitStale(e) => s.(stale := s.stale - {e} + {e.(retire := Some(s.pub.value.ts))})
    case CommitEnd => s.(last := s.pub.value.ts, pub := None)
    case Bump(e) => SetOwn(s, e.rid, Some(s.rows[e.rid].own.value.(done := true))).(epoch := s.epoch + 1, bumped :=
        s.bumped + {e})
    case Drop(e) => s.(stale := s.stale - {e}, bumped := s.bumped - {e})
    case Release(rid, w) => SetOwn(s, rid, None)
    case Begin(id) => s.(readers := s.readers[id := s.last])
    case End(id) => s.(readers := s.readers - {id})
    case Collect(wm) => s.(stale := set e | e in s.stale && !(e.retire.Some? && e.retire.value <= wm))
  }

  // ---------------------------------------------------------------- invariant

  /** The largest commit time given out to a version. */
  function Top(s: State): nat {
    if s.pub.Some? then s.pub.value.ts else s.last
  }

  ghost predicate RowOk(s: State, rid: Rid) {
    && rid in s.rows
    && var row := s.rows[rid];
    && (forall i {:trigger row.versions[i]} :: 0 <= i < |row.versions| ==> row.versions[i].ts <= Top(s))
    && (forall k {:trigger InTree(s, k, rid)} :: InTree(s, k, rid) <==> Current(row) == Some(k))
    && (row.own.Some? && !row.own.value.moved ==> row.own.value.cur == Latest(row))
    && (Latest(row).Some? ==>
          || InTree(s, Latest(row).value, rid)
          || (row.own.Some? && row.own.value.moved && !row.own.value.done))
    && (Latest(row).Some? && row.own.Some? && row.own.value.moved && !row.own.value.done ==>
          Stale(Latest(row).value, rid, row.own.value.txn, None) in s.stale)
    && (row.own.Some? && row.own.value.done ==> row.own.value.cur == Latest(row) && !Publishing(s, row.own.value.txn))
  }

  /** The entry stays in the registry for snapshot `r`: it is stamped later than `r`, or its row is
      published and its stamp is on the way. */
  predicate Keeps(s: State, e: Stale, r: nat) {
    (e.retire.Some? && e.retire.value > r) || (e.retire == None && Publishing(s, e.txn) && !Owns(s, e.rid, e.txn))
  }

  ghost predicate Kept(s: State, r: nat, k: Key, rid: Rid) {
    exists e :: e in s.stale && e.key == k && e.rid == rid && Keeps(s, e, r)
  }

  /** Snapshots that exist or could be taken now. */
  ghost predicate IsSnapshot(s: State, r: nat) {
    r == s.last || exists id :: id in s.readers && s.readers[id] == r
  }

  /** What a snapshot sees of an older version is kept in the registry. */
  ghost predicate SnapshotOk(s: State, r: nat, rid: Rid) {
    && rid in s.rows && r <= s.last
    && var k := KeyAt(s.rows[rid].versions, r);
    && (k.Some? ==> k == Latest(s.rows[rid]) || Kept(s, r, k.value, rid))
  }

  ghost predicate Inv(s: State) {
    && (forall rid {:trigger RowOk(s, rid)} :: rid in s.rows ==> RowOk(s, rid))
    && (forall k {:trigger k in s.tree} :: k in s.tree ==> s.tree[k] in s.rows)
    && (forall r, rid {:trigger SnapshotOk(s, r, rid)} :: IsSnapshot(s, r) && rid in s.rows ==> SnapshotOk(s, r, rid))
    && (forall id {:trigger id in s.readers} :: id in s.readers ==> s.readers[id] <= s.last)
    && (forall e {:trigger e in s.bumped} :: e in s.bumped ==>
          && e in s.stale && e.retire == None && Owns(s, e.rid, e.txn)
          && s.rows[e.rid].own.value.done)
    && (s.pub.Some? ==> s.pub.value.ts > s.last)
  }

  ghost predicate Init(s: State) {
    s == State(map[], {}, {}, 0, 0, map[], map[], None)
  }

  lemma InitInv(s: State)
    requires Init(s)
    ensures Inv(s)
  {
  }

  lemma {:induction false} KeyAtLatest(versions: seq<Version>, r: nat)
    requires forall i {:trigger versions[i]} :: 0 <= i < |versions| ==> versions[i].ts <= r
    ensures KeyAt(versions, r) == Latest(Row(versions, None))
  {
  }

  lemma KeyAtAppend(versions: seq<Version>, v: Version, r: nat)
    requires r < v.ts
    ensures KeyAt(versions + [v], r) == KeyAt(versions, r)
  {
    assert (versions + [v])[..|versions|] == versions;
  }

  // ---------------------------------------------------------------- every step keeps the invariant

  lemma StepKeeps(s: State, a: Action)
    requires Inv(s) && Enabled(s, a)
    ensures Inv(Next(s, a))
  {
    var s' := Next(s, a);
    forall rid | rid in s'.rows ensures RowOk(s', rid) { StepRow(s, a, rid); }
    forall r, rid | IsSnapshot(s', r) && rid in s'.rows ensures SnapshotOk(s', r, rid) { StepSnapshot(s, a, r, rid); }
    StepBumped(s, a);
  }

  lemma StepBumped(s: State, a: Action)
    requires Inv(s) && Enabled(s, a)
    ensures forall e {:trigger e in Next(s, a).bumped} :: e in Next(s, a).bumped ==>
              && e in Next(s, a).stale && e.retire == None && Owns(Next(s, a), e.rid, e.txn)
              && Next(s, a).rows[e.rid].own.value.done
  {
    forall e | e in Next(s, a).bumped
      ensures e in Next(s, a).stale && e.retire == None && Owns(Next(s, a), e.rid, e.txn)
      ensures Next(s, a).rows[e.rid].own.value.done
    {
      StepBumpedAt(s, a, e);
    }
  }

  lemma StepBumpedAt(s: State, a: Action, e: Stale)
    requires Inv(s) && Enabled(s, a) && e in Next(s, a).bumped
    ensures e in Next(s, a).stale && e.retire == None && Owns(Next(s, a), e.rid, e.txn)
    ensures Next(s, a).rows[e.rid].own.value.done
  {
    if e in s.bumped { assert RowOk(s, e.rid); }
    if a.CommitRow? { assert RowOk(s, a.rid); }
  }

  lemma StepRow(s: State, a: Action, rid: Rid)
    requires Inv(s) && Enabled(s, a) && rid in Next(s, a).rows
    ensures RowOk(Next(s, a), rid)
  {
    if a.TreeDelete? || a.TreeInsert? {
      StepRowTree(s, a, rid);
    } else if rid in s.rows && Next(s, a).rows[rid] == s.rows[rid] {
      StepRowSame(s, a, rid);
    } else {
      StepRowOwn(s, a, rid);
    }
  }

  lemma StepRowTree(s: State, a: Action, rid: Rid)
    requires Inv(s) && Enabled(s, a) && rid in Next(s, a).rows && (a.TreeDelete? || a.TreeInsert?)
    ensures RowOk(Next(s, a), rid)
  {
    var s' := Next(s, a);
    assert RowOk(s, rid) && RowOk(s, a.rid);
    if a.TreeDelete? {
      var cur := s.rows[a.rid].own.value.cur.value;
      assert InTree(s, cur, a.rid);
      forall k ensures InTree(s', k, rid) <==> Current(s'.rows[rid]) == Some(k) {
        assert InTree(s', k, rid) == (InTree(s, k, rid) && k != cur);
      }
    } else {
      assert !InTree(s, a.key, rid);
      forall k ensures InTree(s', k, rid) <==> Current(s'.rows[rid]) == Some(k) {
        assert InTree(s', k, rid) == (if k == a.key then rid == a.rid else InTree(s, k, rid));
      }
    }
  }

  lemma StepRowSame(s: State, a: Action, rid: Rid)
    requires Inv(s) && Enabled(s, a) && rid in s.rows && rid in Next(s, a).rows && Next(s, a).rows[rid] == s.rows[rid]
             && Next(s, a).tree == s.tree
    ensures RowOk(Next(s, a), rid)
  {
    var s' := Next(s, a);
    assert RowOk(s, rid);
    forall k ensures InTree(s', k, rid) <==> Current(s'.rows[rid]) == Some(k) {
      assert InTree(s', k, rid) == InTree(s, k, rid);
    }
  }

  lemma StepRowOwn(s: State, a: Action, rid: Rid)
    requires Inv(s) && Enabled(s, a) && rid in Next(s, a).rows && Next(s, a).tree == s.tree
             && !(rid in s.rows && Next(s, a).rows[rid] == s.rows[rid])
    ensures RowOk(Next(s, a), rid)
  {
    var s' := Next(s, a);
    if rid in s.rows { assert RowOk(s, rid); }
    forall k ensures InTree(s', k, rid) <==> Current(s'.rows[rid]) == Some(k) {
      assert InTree(s', k, rid) == InTree(s, k, rid);
    }
    if a.Release? { ReleaseInTree(s, rid); }
  }

  lemma ReleaseInTree(s: State, rid: Rid)
    requires Inv(s) && rid in s.rows && s.rows[rid].own.Some? && s.rows[rid].own.value.cur == Latest(s.rows[rid])
    ensures Latest(s.rows[rid]).Some? ==> InTree(s, Latest(s.rows[rid]).value, rid)
  {
    assert RowOk(s, rid);
  }

  lemma StepSnapshot(s: State, a: Action, r: nat, rid: Rid)
    requires Inv(s) && Enabled(s, a) && IsSnapshot(Next(s, a), r) && rid in Next(s, a).rows
    ensures SnapshotOk(Next(s, a), r, rid)
  {
    var s' := Next(s, a);
    if a.CommitEnd? && r == s'.last {
      assert RowOk(s, rid);
      KeyAtLatest(s.rows[rid].versions, r);
    } else if !(a.NewRow? && rid == a.rid) {
      assert IsSnapshot(s, r);
      assert SnapshotOk(s, r, rid);
      if a.CommitRow? && rid == a.rid {
        RowPublished(s, a, r);
      } else {
        StepKept(s, a, r, rid);
      }
    }
  }

  lemma StepKept(s: State, a: Action, r: nat, rid: Rid)
    requires Inv(s) && Enabled(s, a) && IsSnapshot(s, r) && rid in s.rows && SnapshotOk(s, r, rid)
             && !(a.CommitRow? && rid == a.rid)
    ensures SnapshotOk(Next(s, a), r, rid)
  {
    var s', k := Next(s, a), KeyAt(s.rows[rid].versions, r);
    if k.Some? && k != Latest(s.rows[rid]) {
      var e :| e in s.stale && e.key == k.value && e.rid == rid && Keeps(s, e, r);
      var e' := if a.CommitStale? && e == a.entry then e.(retire := Some(s.pub.value.ts)) else e;
      assert e' in s'.stale && Keeps(s', e', r);
    }
  }

  /** Publishing a row with a new key leaves the old key to the registry, for every snapshot. */
  lemma RowPublished(s: State, a: Action, r: nat)
    requires Inv(s) && a.CommitRow? && Enabled(s, a) && IsSnapshot(s, r) && SnapshotOk(s, r, a.rid)
    ensures SnapshotOk(Next(s, a), r, a.rid)
  {
    var s', row := Next(s, a), s.rows[a.rid];
    var w, c := s.pub.value.txn, s.pub.value.ts;
    assert RowOk(s, a.rid);
    KeyAtAppend(row.versions, Version(c, row.own.value.cur), r);
    var k := KeyAt(row.versions, r);
    assert KeyAt(s'.rows[a.rid].versions, r) == k;
    if k.Some? && row.own.value.cur != k {
      if k == Latest(row) {
        assert !InTree(s, k.value, a.rid);
        assert Keeps(s', Stale(k.value, a.rid, w, None), r);
      } else {
        var e :| e in s.stale && e.key == k.value && e.rid == a.rid && Keeps(s, e, r);
        assert Keeps(s', e, r);
      }
    }
  }

  // ---------------------------------------------------------------- runs

  /** A run: each state follows from the one before by some enabled step. */
  ghost predicate Run(states: seq<State>) {
    && |states| > 0 && Init(states[0])
    && forall i {:trigger Follows(states, i)} :: 0 <= i < |states| - 1 ==> Follows(states, i)
  }

  ghost predicate Follows(states: seq<State>, i: int)
    requires 0 <= i < |states| - 1
  {
    exists a :: Enabled(states[i], a) && states[i + 1] == Next(states[i], a)
  }

  lemma {:induction false} RunInv(states: seq<State>, i: nat)
    requires Run(states) && i < |states|
    ensures Inv(states[i])
  {
    if i > 0 {
      RunInv(states, i - 1);
      assert Follows(states, i - 1);
      var a :| Enabled(states[i - 1], a) && states[i] == Next(states[i - 1], a);
      StepKeeps(states[i - 1], a);
    } else {
      InitInv(states[0]);
    }
  }

  lemma {:induction false} EpochRises(states: seq<State>, i: nat, j: nat)
    requires Run(states) && i <= j < |states|
    ensures states[i].epoch <= states[j].epoch
    decreases j - i
  {
    if i < j {
      EpochRises(states, i, j - 1);
      assert Follows(states, j - 1);
    }
  }

  /** The entry that shows the pair at time `i` still shows it at time `j`, or an abort bumped the
      epoch in between: while the reader is registered no collection takes it away, and a commit
      only stamps it with a later time. */
  lemma {:induction false} EntryLasts(states: seq<State>, i: nat, j: nat, id: int, r: nat, e: Stale)
    requires Run(states) && i <= j < |states|
    requires forall t {:trigger states[t]} :: i <= t <= j ==> id in states[t].readers && states[t].readers[id] == r
    requires e in states[i].stale && e !in states[i].bumped && (e.retire == None || e.retire.value > r)
    ensures states[i].epoch < states[j].epoch ||
            (exists f :: f in states[j].stale && f !in states[j].bumped && Shows(f, r, e.key, e.rid))
    decreases j - i
  {
    if i < j {
      EntryLasts(states, i, j - 1, id, r, e);
      EpochRises(states, i, j);
      EpochRises(states, j - 1, j);
      var s := states[j - 1];
      RunInv(states, j - 1);
      if states[i].epoch == states[j].epoch {
        EpochRises(states, i, j - 1);
        var f :| f in s.stale && f !in s.bumped && Shows(f, r, e.key, e.rid);
        assert Follows(states, j - 1);
        var a :| Enabled(s, a) && states[j] == Next(s, a);
        StepEntry(s, a, id, r, f);
      }
    } else {
      assert Shows(e, r, e.key, e.rid);
    }
  }

  lemma StepEntry(s: State, a: Action, id: int, r: nat, f: Stale)
    requires Inv(s) && Enabled(s, a) && id in s.readers && s.readers[id] == r
    requires f in s.stale && f !in s.bumped && Shows(f, r, f.key, f.rid)
    requires Next(s, a).epoch == s.epoch
    ensures exists h :: h in Next(s, a).stale && h !in Next(s, a).bumped && Shows(h, r, f.key, f.rid)
  {
    var s' := Next(s, a);
    if a.CommitStale? && f == a.entry {
      var h := f.(retire := Some(s.pub.value.ts));
      assert h in s'.stale && Shows(h, r, f.key, f.rid);
      assert h !in s'.bumped;
    } else {
      assert f in s'.stale && f !in s'.bumped;
    }
  }

  /** A reader that probes the tree at `t1` and the registry at `t2`, and finds the same handoff
      epoch before (`t0`) and after (`t3`), has met every pair its snapshot needs, whatever the
      writers did in between. */
  lemma ReaderMissesNothing(states: seq<State>, t0: nat, t1: nat, t2: nat, t3: nat, id: int, k: Key, rid: Rid)
    requires Run(states) && t0 <= t1 <= t2 <= t3 < |states| && id in states[t1].readers
    requires forall t {:trigger states[t]} :: t1 <= t <= t2 ==>
               id in states[t].readers && states[t].readers[id] == states[t1].readers[id]
    requires states[t0].epoch == states[t3].epoch
    requires Needs(states[t1], states[t1].readers[id], k, rid)
    ensures InTree(states[t1], k, rid) || InStale(states[t2], states[t1].readers[id], k, rid)
  {
    var s, r := states[t1], states[t1].readers[id];
    RunInv(states, t1);
    EpochRises(states, t0, t1);
    EpochRises(states, t1, t2);
    EpochRises(states, t2, t3);
    if !InTree(s, k, rid) {
      assert SnapshotOk(s, r, rid) && RowOk(s, rid);
      var row := s.rows[rid];
      var e: Stale;
      if Latest(row) == Some(k) {
        e := Stale(k, rid, row.own.value.txn, None);
      } else {
        e :| e in s.stale && e.key == k && e.rid == rid && Keeps(s, e, r);
      }
      EntryLasts(states, t1, t2, id, r, e);
    }
  }

  // ---------------------------------------------------------------- why the epoch is compared

  const ROW: Rid := IxModel.Rid(1, 0)
  const OLD: Stale := Stale(10, ROW, 8, None)

  /** Transaction 7 creates a row under key 10; transaction 8 takes the key away and aborts. */
  ghost function Handoff(i: nat): State {
    var fresh_ := Row([], Some(Own(7, Some(10), true, false)));
    var committed := Row([Version(1, Some(10))], None);
    var held := committed.(own := Some(Own(8, Some(10), false, false)));
    var away := committed.(own := Some(Own(8, None, true, false)));
    var back := committed.(own := Some(Own(8, Some(10), true, false)));
    var done := committed.(own := Some(Own(8, Some(10), true, true)));
    var at, readers, pub := map[10 := ROW], map[0 := 1], Some(Publication(7, 1));
    if i == 0 then State(map[], {}, {}, 0, 0, map[], map[], None)
    else if i == 1 then State(map[], {}, {}, 0, 0, map[ROW := Row([], Some(Own(7, None, true, false)))], map[], None)
    else if i == 2 then State(at, {}, {}, 0, 0, map[ROW := fresh_], map[], None)
    else if i == 3 then State(at, {}, {}, 0, 0, map[ROW := fresh_], map[], pub)
    else if i == 4 then State(at, {}, {}, 0, 0, map[ROW := committed], map[], pub)
    else if i == 5 then State(at, {}, {}, 0, 1, map[ROW := committed], map[], None)
    else if i == 6 then State(at, {}, {}, 0, 1, map[ROW := committed], readers, None)
    else if i == 7 then State(at, {}, {}, 0, 1, map[ROW := held], readers, None)
    else if i == 8 then State(at, {OLD}, {}, 0, 1, map[ROW := held], readers, None)
    else if i == 9 then State(map[], {OLD}, {}, 0, 1, map[ROW := away], readers, None)
    else if i == 10 then State(at, {OLD}, {}, 0, 1, map[ROW := back], readers, None)
    else if i == 11 then State(at, {OLD}, {OLD}, 1, 1, map[ROW := done], readers, None)
    else State(at, {}, {}, 1, 1, map[ROW := done], readers, None)
  }

  function HandoffStep(i: nat): Action {
    if i == 0 then NewRow(ROW, 7) else if i == 1 then TreeInsert(ROW, 7, 10) else if i == 2 then CommitBegin(7, 1)
    else if i == 3 then CommitRow(ROW) else if i == 4 then CommitEnd
    else if i == 5 then Begin(0) else if i == 6 then Acquire(ROW, 8) else if i == 7 then AddStale(ROW, 8)
    else if i == 8 then TreeDelete(ROW, 8) else if i == 9 then TreeInsert(ROW, 8, 10) else if i == 10 then Bump(OLD)
        else Drop(OLD)
  }

  /** Up to the commit of the first transaction. */
  lemma HandoffCommit(i: nat)
    requires i < 5
    ensures Enabled(Handoff(i), HandoffStep(i)) && Handoff(i + 1) == Next(Handoff(i), HandoffStep(i))
  {
    assert [] + [Version(1, Some(10))] == [Version(1, Some(10))];
    var s, s' := Handoff(i), Next(Handoff(i), HandoffStep(i));
    assert s'.rows == Handoff(i + 1).rows;
    assert s'.tree == Handoff(i + 1).tree;
    assert s'.stale == Handoff(i + 1).stale;
    assert s'.bumped == Handoff(i + 1).bumped;
  }

  /** Up to the moment the key is out of the tree. */
  lemma HandoffAway(i: nat)
    requires 5 <= i < 9
    ensures Enabled(Handoff(i), HandoffStep(i)) && Handoff(i + 1) == Next(Handoff(i), HandoffStep(i))
  {
    var s, s' := Handoff(i), Next(Handoff(i), HandoffStep(i));
    assert s'.rows == Handoff(i + 1).rows;
    assert s'.tree == Handoff(i + 1).tree;
    assert s'.stale == Handoff(i + 1).stale;
    assert s'.bumped == Handoff(i + 1).bumped;
  }

  /** The abort. */
  lemma HandoffBack(i: nat)
    requires 9 <= i < 12
    ensures Enabled(Handoff(i), HandoffStep(i)) && Handoff(i + 1) == Next(Handoff(i), HandoffStep(i))
  {
    var s, s' := Handoff(i), Next(Handoff(i), HandoffStep(i));
    assert s'.rows == Handoff(i + 1).rows;
    assert s'.tree == Handoff(i + 1).tree;
    assert s'.stale == Handoff(i + 1).stale;
    assert s'.bumped == Handoff(i + 1).bumped;
  }

  /** One tree probe followed by one registry lookup is not enough by itself: an abort between the
      two moves the pair from the registry back into the tree behind the reader's back. */
  lemma HandoffCanBeMissed() returns (states: seq<State>, t1: nat, t2: nat, id: int, k: Key, rid: Rid)
    ensures Run(states) && t1 <= t2 < |states| && id in states[t1].readers
    ensures forall t {:trigger states[t]} :: t1 <= t <= t2 ==>
              id in states[t].readers && states[t].readers[id] == states[t1].readers[id]
    ensures Needs(states[t1], states[t1].readers[id], k, rid)
    ensures !InTree(states[t1], k, rid) && !InStale(states[t2], states[t1].readers[id], k, rid)
    ensures states[t1].epoch != states[t2].epoch
  {
    states := seq(13, i requires 0 <= i => Handoff(i));
    t1, t2, id, k, rid := 9, 12, 0, 10, ROW;
    forall i | 0 <= i < |states| - 1 ensures Follows(states, i) {
      if i < 5 { HandoffCommit(i); } else if i < 9 { HandoffAway(i); } else { HandoffBack(i); }
      assert states[i + 1] == Next(states[i], HandoffStep(i));
    }
    forall t | 9 <= t <= 12 ensures states[t].readers == map[0 := 1] { }
  }
}
