/** UPDATE and the unique indexes: every changed row gives its old key up and takes a new one, first
    all deletes, then all inserts; an abort undoes the rows one by one from the last to the first,
    wherever the statement stopped. */
module UpdateRekey {
  import opened Basics
  import opened IxModel
  import opened IxIndex

  /** One row to update, with its key in every index before and after. */
  datatype Pending = Pending(rid: Rid, old_: seq<Key>, new_: seq<Key>)

  datatype Outcome = Done | DuplicateKey | EntryNotFound | Interrupted

  /** The index operation that fails and stops the statement. */
  datatype Stop = Stop(inserting: bool, row: nat, index: nat)

  type Index = map<Key, Rid>

  predicate Changed(p: Pending, k: nat)
    requires k < |p.old_| && k < |p.new_|
  {
    p.old_[k] != p.new_[k]
  }

  predicate Shaped(rows: seq<Pending>, n: nat) {
    forall i :: 0 <= i < |rows| ==> |rows[i].old_| == n && |rows[i].new_| == n
  }

  /** Row `i` gives up key `key` of index `k`. */
  predicate Gives(rows: seq<Pending>, n: nat, k: nat, i: nat, key: Key)
    requires Shaped(rows, n) && k < n && i < |rows|
  {
    Changed(rows[i], k) && rows[i].old_[k] == key
  }

  predicate Takes(rows: seq<Pending>, n: nat, k: nat, i: nat, key: Key)
    requires Shaped(rows, n) && k < n && i < |rows|
  {
    Changed(rows[i], k) && rows[i].new_[k] == key
  }

  /** No two rows take the same new key. */
  ghost predicate NewKeysDiffer(rows: seq<Pending>, n: nat, k: nat)
    requires Shaped(rows, n) && k < n
  {
    forall i, j {:trigger Changed(rows[i], k), Changed(rows[j], k)} ::
      0 <= i < j < |rows| && Changed(rows[i], k) && Changed(rows[j], k) ==> rows[i].new_[k] != rows[j].new_[k]
  }

  /** Index `m` is `{key(row) -> rid}` for the table's rows, `keyOf` being their keys. */
  ghost predicate IndexIs(m: Index, keyOf: map<Rid, Key>) {
    && (forall k :: k in m ==> m[k] in keyOf && keyOf[m[k]] == k)
    && (forall rid :: rid in keyOf ==> keyOf[rid] in m && m[keyOf[rid]] == rid)
  }

  /** The rows are rows of the table, each once, with the keys it has. */
  ghost predicate RowsOf(rows: seq<Pending>, n: nat, k: nat, keyOf: map<Rid, Key>)
    requires Shaped(rows, n) && k < n
  {
    && (forall i :: 0 <= i < |rows| ==> rows[i].rid in keyOf && keyOf[rows[i].rid] == rows[i].old_[k])
    && (forall i, j :: 0 <= i < j < |rows| ==> rows[i].rid != rows[j].rid)
  }

  /** What the unique-key reservation accepted: a new key is free, or a row of the batch gives it up. */
  ghost predicate Accepted(rows: seq<Pending>, n: nat, k: nat, m: Index)
    requires Shaped(rows, n) && k < n
  {
    forall i {:trigger Changed(rows[i], k)} :: 0 <= i < |rows| && Changed(rows[i], k) && rows[i].new_[k] in m ==>
      exists j :: 0 <= j < |rows| && Gives(rows, n, k, j, rows[i].new_[k])
  }

  /** The keys of the table's rows after the first `c` rows are updated. */
  ghost function NewKeys(keyOf: map<Rid, Key>, rows: seq<Pending>, n: nat, k: nat, c: nat): map<Rid, Key>
    requires Shaped(rows, n) && k < n && c <= |rows|
  {
    if c == 0 then keyOf else NewKeys(keyOf, rows, n, k, c - 1)[rows[c - 1].rid := rows[c - 1].new_[k]]
  }

  // ---------------------------------------------------------------- one index as a map

  ghost function Del(m: Index, rows: seq<Pending>, n: nat, k: nat, c: nat): Index
    requires Shaped(rows, n) && k < n && c <= |rows|
  {
    if c == 0 then m
    else if Changed(rows[c - 1], k) then Del(m, rows, n, k, c - 1) - {rows[c - 1].old_[k]}
    else Del(m, rows, n, k, c - 1)
  }

  ghost function Ins(m: Index, rows: seq<Pending>, n: nat, k: nat, c: nat): Index
    requires Shaped(rows, n) && k < n && c <= |rows|
  {
    if c == 0 then m
    else if Changed(rows[c - 1], k) then Ins(m, rows, n, k, c - 1)[rows[c - 1].new_[k] := rows[c - 1].rid]
    else Ins(m, rows, n, k, c - 1)
  }

  lemma {:induction false} DelIs(m: Index, rows: seq<Pending>, n: nat, k: nat, c: nat, key: Key)
    requires Shaped(rows, n) && k < n && c <= |rows|
    ensures key in Del(m, rows, n, k, c) <==> key in m && forall i :: 0 <= i < c ==> !Gives(rows, n, k, i, key)
    ensures key in Del(m, rows, n, k, c) ==> Del(m, rows, n, k, c)[key] == m[key]
  {
    if c > 0 {
      DelIs(m, rows, n, k, c - 1, key);
      assert Gives(rows, n, k, c - 1, key) <==> Changed(rows[c - 1], k) && rows[c - 1].old_[k] == key;
    }
  }

  lemma {:induction false} InsIs(m: Index, rows: seq<Pending>, n: nat, k: nat, c: nat, key: Key)
    requires Shaped(rows, n) && k < n && c <= |rows| && NewKeysDiffer(rows, n, k)
    ensures key in Ins(m, rows, n, k, c) <==> key in m || exists i :: 0 <= i < c && Takes(rows, n, k, i, key)
    ensures forall i :: 0 <= i < c && Takes(rows, n, k, i, key) ==>
              key in Ins(m, rows, n, k, c) && Ins(m, rows, n, k, c)[key] == rows[i].rid
    ensures key in m && (forall i :: 0 <= i < c ==> !Takes(rows, n, k, i, key)) ==> Ins(m, rows, n, k, c)[key] == m[key]
  {
    if c > 0 {
      InsIs(m, rows, n, k, c - 1, key);
      assert Takes(rows, n, k, c - 1, key) <==> Changed(rows[c - 1], k) && rows[c - 1].new_[k] == key;
    }
  }

  /** The index after the deletes of the first `d` rows and the inserts of the first `e`. */
  ghost function Part(m: Index, rows: seq<Pending>, n: nat, k: nat, d: nat, e: nat): Index
    requires Shaped(rows, n) && k < n && d <= |rows| && e <= |rows|
  {
    Ins(Del(m, rows, n, k, d), rows, n, k, e)
  }

  lemma PartAt(m: Index, rows: seq<Pending>, n: nat, k: nat, d: nat, e: nat, key: Key)
    requires Shaped(rows, n) && k < n && d <= |rows| && e <= |rows| && NewKeysDiffer(rows, n, k)
    ensures key in Part(m, rows, n, k, d, e) <==>
              TakenIn(rows, n, k, 0, e, key) || (key in m && !GivenIn(rows, n, k, 0, d, key))
    ensures forall i :: 0 <= i < e && Takes(rows, n, k, i, key) ==>
              key in Part(m, rows, n, k, d, e) && Part(m, rows, n, k, d, e)[key] == rows[i].rid
    ensures key in Part(m, rows, n, k, d, e) && !TakenIn(rows, n, k, 0, e, key) ==>
              Part(m, rows, n, k, d, e)[key] == m[key]
  {
    DelIs(m, rows, n, k, d, key);
    InsIs(Del(m, rows, n, k, d), rows, n, k, e, key);
  }

  /** One of the rows from `lo` up to `hi` takes the key. */
  ghost predicate TakenIn(rows: seq<Pending>, n: nat, k: nat, lo: nat, hi: nat, key: Key)
    requires Shaped(rows, n) && k < n && hi <= |rows|
  {
    exists j :: lo <= j < hi && Takes(rows, n, k, j, key)
  }

  ghost predicate GivenIn(rows: seq<Pending>, n: nat, k: nat, lo: nat, hi: nat, key: Key)
    requires Shaped(rows, n) && k < n && hi <= |rows|
  {
    exists j :: lo <= j < hi && Gives(rows, n, k, j, key)
  }

  // ---------------------------------------------------------------- forward

  lemma GivenOnce(m: Index, keyOf: map<Rid, Key>, rows: seq<Pending>, n: nat, k: nat, i: nat, j: nat)
    requires Shaped(rows, n) && k < n && IndexIs(m, keyOf) && RowsOf(rows, n, k, keyOf) && i < |rows| && j < |rows|
             && i != j
    ensures rows[i].old_[k] != rows[j].old_[k] && rows[i].old_[k] in m && m[rows[i].old_[k]] == rows[i].rid
  {
    assert rows[i].rid != rows[j].rid;
    assert m[keyOf[rows[i].rid]] == rows[i].rid && m[keyOf[rows[j].rid]] == rows[j].rid;
  }

  /** Each delete finds its key. */
  lemma OldKeyPresent(m: Index, keyOf: map<Rid, Key>, rows: seq<Pending>, n: nat, k: nat, c: nat)
    requires Shaped(rows, n) && k < n && IndexIs(m, keyOf) && RowsOf(rows, n, k, keyOf) && c < |rows|
    ensures rows[c].old_[k] in Del(m, rows, n, k, c)
  {
    DelIs(m, rows, n, k, c, rows[c].old_[k]);
    assert keyOf[rows[c].rid] in m;
    forall i | 0 <= i < c ensures !Gives(rows, n, k, i, rows[c].old_[k]) { GivenOnce(m, keyOf, rows, n, k, i, c); }
  }

  /** No insert meets a duplicate. */
  lemma NewKeyAbsent(m: Index, rows: seq<Pending>, n: nat, k: nat, c: nat)
    requires Shaped(rows, n) && k < n && NewKeysDiffer(rows, n, k) && Accepted(rows, n, k, m)
    requires c < |rows| && Changed(rows[c], k)
    ensures rows[c].new_[k] !in Ins(Del(m, rows, n, k, |rows|), rows, n, k, c)
  {
    var key := rows[c].new_[k];
    InsIs(Del(m, rows, n, k, |rows|), rows, n, k, c, key);
    DelIs(m, rows, n, k, |rows|, key);
    forall i | 0 <= i < c ensures !Takes(rows, n, k, i, key) { }
  }

  lemma {:induction false} NewKeysAt(keyOf: map<Rid, Key>, rows: seq<Pending>, n: nat, k: nat, c: nat, rid: Rid)
    requires Shaped(rows, n) && k < n && c <= |rows| && RowsOf(rows, n, k, keyOf)
    ensures rid in NewKeys(keyOf, rows, n, k, c) <==> rid in keyOf
    ensures forall i :: 0 <= i < c && rows[i].rid == rid ==>
              rid in NewKeys(keyOf, rows, n, k, c) && NewKeys(keyOf, rows, n, k, c)[rid] == rows[i].new_[k]
    ensures rid in keyOf && (forall i :: 0 <= i < c ==> rows[i].rid != rid) ==>
              NewKeys(keyOf, rows, n, k, c)[rid] == keyOf[rid]
  {
    if c > 0 {
      NewKeysAt(keyOf, rows, n, k, c - 1, rid);
    }
  }

  /** The re-keyed index is `{key(new row) -> rid}`. */
  lemma RekeyedIs(m: Index, keyOf: map<Rid, Key>, rows: seq<Pending>, n: nat, k: nat)
    requires Shaped(rows, n) && k < n && IndexIs(m, keyOf) && RowsOf(rows, n, k, keyOf) && NewKeysDiffer(rows, n, k)
             && Accepted(rows, n, k, m)
    ensures IndexIs(Part(m, rows, n, k, |rows|, |rows|), NewKeys(keyOf, rows, n, k, |rows|))
  {
    var c := |rows|;
    var m', keyOf' := Part(m, rows, n, k, c, c), NewKeys(keyOf, rows, n, k, c);
    forall key | key in m' ensures m'[key] in keyOf' && keyOf'[m'[key]] == key {
      DelIs(m, rows, n, k, c, key);
      InsIs(Del(m, rows, n, k, c), rows, n, k, c, key);
      NewKeysAt(keyOf, rows, n, k, c, m'[key]);
      if key in Del(m, rows, n, k, c) && forall i :: 0 <= i < c ==> !Takes(rows, n, k, i, key) {
        forall i | 0 <= i < c && rows[i].rid == m'[key] ensures rows[i].new_[k] == key {
          assert !Gives(rows, n, k, i, key);
        }
      }
    }
    forall rid | rid in keyOf' ensures keyOf'[rid] in m' && m'[keyOf'[rid]] == rid {
      RekeyedRow(m, keyOf, rows, n, k, rid);
    }
  }

  lemma RekeyedRow(m: Index, keyOf: map<Rid, Key>, rows: seq<Pending>, n: nat, k: nat, rid: Rid)
    requires Shaped(rows, n) && k < n && IndexIs(m, keyOf) && RowsOf(rows, n, k, keyOf) && NewKeysDiffer(rows, n, k)
             && Accepted(rows, n, k, m)
    requires rid in NewKeys(keyOf, rows, n, k, |rows|)
    ensures var key := NewKeys(keyOf, rows, n, k, |rows|)[rid];
            key in Part(m, rows, n, k, |rows|, |rows|) && Part(m, rows, n, k, |rows|, |rows|)[key] == rid
  {
    var c := |rows|;
    NewKeysAt(keyOf, rows, n, k, c, rid);
    var key := NewKeys(keyOf, rows, n, k, c)[rid];
    DelIs(m, rows, n, k, c, key);
    InsIs(Del(m, rows, n, k, c), rows, n, k, c, key);
    if i :| 0 <= i < c && rows[i].rid == rid && Changed(rows[i], k) {
      assert Takes(rows, n, k, i, key);
    } else {
      assert keyOf[rid] == key && key in m && m[key] == rid;
      forall i | 0 <= i < c ensures !Gives(rows, n, k, i, key) && !Takes(rows, n, k, i, key) {
        KeptKey(m, keyOf, rows, n, k, rid, i);
      }
    }
  }

  /** The key of a row that keeps it is neither given up nor taken by another. */
  lemma KeptKey(m: Index, keyOf: map<Rid, Key>, rows: seq<Pending>, n: nat, k: nat, rid: Rid, i: nat)
    requires Shaped(rows, n) && k < n && IndexIs(m, keyOf) && RowsOf(rows, n, k, keyOf) && Accepted(rows, n, k, m)
    requires rid in keyOf && i < |rows| && forall j :: 0 <= j < |rows| && rows[j].rid == rid ==> !Changed(rows[j], k)
    ensures !Gives(rows, n, k, i, keyOf[rid]) && !Takes(rows, n, k, i, keyOf[rid])
  {
    var key := keyOf[rid];
    assert key in m && m[key] == rid;
    forall j | 0 <= j < |rows| ensures !Gives(rows, n, k, j, key) { assert keyOf[rows[j].rid] == rows[j].old_[k]; }
  }

  /** The handles are trees of their own, each sound. */
  ghost predicate Trees(ihs: seq<IxIndexHandle>)
    reads ihs
  {
    && (forall k {:trigger ihs[k]} :: 0 <= k < |ihs| ==> ihs[k].Valid())
    && (forall i, j :: 0 <= i < j < |ihs| ==> ihs[i] != ihs[j])
  }

  /** Everything the statement has checked before it touches the trees. */
  ghost predicate Ready(ms: seq<Index>, keyOf: seq<map<Rid, Key>>, rows: seq<Pending>) {
    && |keyOf| == |ms| && Shaped(rows, |ms|)
    && forall k {:trigger ms[k]} :: 0 <= k < |ms| ==>
         IndexIs(ms[k], keyOf[k]) && RowsOf(rows, |ms|, k, keyOf[k]) && NewKeysDiffer(rows, |ms|, k)
             && Accepted(rows, |ms|, k, ms[k])
  }

  /** `DeleteEntry` on one of the trees. */
  method DeleteAt(ihs: seq<IxIndexHandle>, k: nat, key: Key) returns (found: bool)
    requires Trees(ihs) && k < |ihs|
    modifies ihs[k]
    ensures Trees(ihs) && (found <==> key in old(ihs[k].Contents()))
            && ihs[k].Contents() == old(ihs[k].Contents()) - {key}
    ensures forall q {:trigger ihs[q].Contents()} :: 0 <= q < |ihs| && q != k ==>
              ihs[q].Contents() == old(ihs[q].Contents())
  {
    found := ihs[k].DeleteEntry(key);
  }

  method InsertInto(ihs: seq<IxIndexHandle>, k: nat, key: Key, rid: Rid) returns (ok: bool)
    requires Trees(ihs) && k < |ihs|
    modifies ihs[k]
    ensures Trees(ihs) && (ok <==> key !in old(ihs[k].Contents()))
    ensures ihs[k].Contents() == if ok then old(ihs[k].Contents())[key := rid] else old(ihs[k].Contents())
    ensures forall q {:trigger ihs[q].Contents()} :: 0 <= q < |ihs| && q != k ==>
              ihs[q].Contents() == old(ihs[q].Contents())
  {
    var leafNo;
    ok, leafNo := ihs[k].InsertEntry(key, rid, null, true);
  }

  /** Rows whose delete is done on index `k` when the statement stops. */
  function Deletes(stop: Option<Stop>, rows: nat, k: nat): (d: nat)
    requires InReach(stop, rows)
    ensures d <= rows
  {
    if stop.None? || stop.value.inserting then rows
    else if k < stop.value.index then stop.value.row + 1 else stop.value.row
  }

  function Inserts(stop: Option<Stop>, rows: nat, k: nat): (e: nat)
    requires InReach(stop, rows)
    ensures e <= rows
  {
    if stop.None? then rows
    else if !stop.value.inserting then 0
    else if k < stop.value.index then stop.value.row + 1 else stop.value.row
  }

  predicate InReach(stop: Option<Stop>, rows: nat) {
    stop.Some? ==> stop.value.row < rows
  }

  /** The trees hold what the statement has made of the indexes `ms` when it stops. */
  ghost predicate StoppedAt(ihs: seq<IxIndexHandle>, ms: seq<Index>, rows: seq<Pending>, stop: Option<Stop>)
    requires |ms| == |ihs| && Shaped(rows, |ms|) && InReach(stop, |rows|) && Trees(ihs)
    reads ihs
  {
    forall k {:trigger ms[k]} :: 0 <= k < |ihs| ==>
      ihs[k].Contents() == Part(ms[k], rows, |ms|, k, Deletes(stop, |rows|, k), Inserts(stop, |rows|, k))
  }

  /** One row gives its keys up. */
  method DeleteRow(ihs: seq<IxIndexHandle>, rows: seq<Pending>, i: nat, stop: Option<Stop>, ghost ms: seq<Index>,
                   ghost keyOf: seq<map<Rid, Key>>)
      returns (r: Outcome)
    requires Trees(ihs) && |ms| == |ihs| && Ready(ms, keyOf, rows) && i < |rows|
    requires forall k {:trigger ms[k]} :: 0 <= k < |ihs| ==> ihs[k].Contents() == Del(ms[k], rows, |ms|, k, i)
    modifies ihs
    ensures Trees(ihs) && r == if Here(stop, false, i, |ihs|) then Interrupted else Done
    ensures forall k {:trigger ms[k]} :: 0 <= k < |ihs| ==>
              ihs[k].Contents() == Del(ms[k], rows, |ms|, k, if r == Done || k < stop.value.index then i + 1 else i)
  {
    for k := 0 to |ihs|
      invariant Trees(ihs) && (Here(stop, false, i, |ihs|) ==> k <= stop.value.index)
      invariant forall q {:trigger ms[q]} :: 0 <= q < |ihs| ==>
                  ihs[q].Contents() == Del(ms[q], rows, |ms|, q, if q < k then i + 1 else i)
    {
      if stop == Some(Stop(false, i, k)) {
        return Interrupted;
      }
      r := DeleteOne(ihs, rows, i, k, ms[k], keyOf[k]);
      if r != Done {
        return;
      }
    }
    r := Done;
  }

  /** The statement stops at an operation of row `i`. */
  predicate Here(stop: Option<Stop>, inserting: bool, i: nat, n: nat) {
    stop.Some? && stop.value.inserting == inserting && stop.value.row == i && stop.value.index < n
  }

  method DeleteOne(ihs: seq<IxIndexHandle>, rows: seq<Pending>, i: nat, k: nat, ghost m: Index, ghost keyOf: map<Rid,
                   Key>) returns (r: Outcome)
    requires Trees(ihs) && Shaped(rows, |ihs|) && i < |rows| && k < |ihs| && IndexIs(m, keyOf)
             && RowsOf(rows, |ihs|, k, keyOf)
    requires ihs[k].Contents() == Del(m, rows, |ihs|, k, i)
    modifies ihs[k]
    ensures Trees(ihs) && r == Done && ihs[k].Contents() == Del(m, rows, |ihs|, k, i + 1)
    ensures forall q {:trigger ihs[q].Contents()} :: 0 <= q < |ihs| && q != k ==>
              ihs[q].Contents() == old(ihs[q].Contents())
  {
    if Changed(rows[i], k) {
      OldKeyPresent(m, keyOf, rows, |ihs|, k, i);
      var found := DeleteAt(ihs, k, rows[i].old_[k]);
      if !found {
        return EntryNotFound;
      }
    }
    r := Done;
  }

  /** One row takes its new keys. */
  method InsertRow(ihs: seq<IxIndexHandle>, rows: seq<Pending>, i: nat, stop: Option<Stop>, ghost ms: seq<Index>,
                   ghost keyOf: seq<map<Rid, Key>>)
      returns (r: Outcome)
    requires Trees(ihs) && |ms| == |ihs| && Ready(ms, keyOf, rows) && i < |rows|
    requires forall k {:trigger ms[k]} :: 0 <= k < |ihs| ==> ihs[k].Contents() == Part(ms[k], rows, |ms|, k, |rows|, i)
    modifies ihs
    ensures Trees(ihs) && r == if Here(stop, true, i, |ihs|) then Interrupted else Done
    ensures forall k {:trigger ms[k]} :: 0 <= k < |ihs| ==>
              ihs[k].Contents() == Part(ms[k], rows, |ms|, k, |rows|, if r == Done
                  || k < stop.value.index then i + 1 else i)
  {
    for k := 0 to |ihs|
      invariant Trees(ihs) && (Here(stop, true, i, |ihs|) ==> k <= stop.value.index)
      invariant forall q {:trigger ms[q]} :: 0 <= q < |ihs| ==>
                  ihs[q].Contents() == Part(ms[q], rows, |ms|, q, |rows|, if q < k then i + 1 else i)
    {
      if stop == Some(Stop(true, i, k)) {
        return Interrupted;
      }
      r := InsertOne(ihs, rows, i, k, ms[k]);
      if r != Done {
        return;
      }
    }
    r := Done;
  }

  method InsertOne(ihs: seq<IxIndexHandle>, rows: seq<Pending>, i: nat, k: nat, ghost m: Index) returns (r: Outcome)
    requires Trees(ihs) && Shaped(rows, |ihs|) && i < |rows| && k < |ihs| && NewKeysDiffer(rows, |ihs|, k)
             && Accepted(rows, |ihs|, k, m)
    requires ihs[k].Contents() == Part(m, rows, |ihs|, k, |rows|, i)
    modifies ihs[k]
    ensures Trees(ihs) && r == Done && ihs[k].Contents() == Part(m, rows, |ihs|, k, |rows|, i + 1)
    ensures forall q {:trigger ihs[q].Contents()} :: 0 <= q < |ihs| && q != k ==>
              ihs[q].Contents() == old(ihs[q].Contents())
  {
    if Changed(rows[i], k) {
      NewKeyAbsent(m, rows, |ihs|, k, i);
      var ok := InsertInto(ihs, k, rows[i].new_[k], rows[i].rid);
      if !ok {
        return DuplicateKey;
      }
    }
    r := Done;
  }

  method DeleteOldKeys(ihs: seq<IxIndexHandle>, rows: seq<Pending>, stop: Option<Stop>, ghost ms: seq<Index>,
                       ghost keyOf: seq<map<Rid, Key>>)
      returns (r: Outcome)
    requires Trees(ihs) && |ms| == |ihs| && Ready(ms, keyOf, rows) && Within(stop, |rows|, |ihs|)
    requires forall k {:trigger ms[k]} :: 0 <= k < |ihs| ==> ihs[k].Contents() == ms[k]
    modifies ihs
    ensures Trees(ihs) && r == if stop.Some? && !stop.value.inserting then Interrupted else Done
    ensures forall k {:trigger ms[k]} :: 0 <= k < |ihs| ==>
              ihs[k].Contents() == Del(ms[k], rows, |ms|, k, Deletes(stop, |rows|, k))
  {
    for i := 0 to |rows|
      invariant Trees(ihs) && (stop.Some? && !stop.value.inserting ==> i <= stop.value.row)
      invariant forall k {:trigger ms[k]} :: 0 <= k < |ihs| ==> ihs[k].Contents() == Del(ms[k], rows, |ms|, k, i)
    {
      r := DeleteRow(ihs, rows, i, stop, ms, keyOf);
      if r != Done {
        return;
      }
    }
    r := Done;
  }

  method InsertNewKeys(ihs: seq<IxIndexHandle>, rows: seq<Pending>, stop: Option<Stop>, ghost ms: seq<Index>,
                       ghost keyOf: seq<map<Rid, Key>>)
      returns (r: Outcome)
    requires Trees(ihs) && |ms| == |ihs| && Ready(ms, keyOf, rows) && Within(stop, |rows|, |ihs|)
             && (stop.Some? ==> stop.value.inserting)
    requires forall k {:trigger ms[k]} :: 0 <= k < |ihs| ==> ihs[k].Contents() == Del(ms[k], rows, |ms|, k, |rows|)
    modifies ihs
    ensures Trees(ihs) && r == if stop.Some? then Interrupted else Done
    ensures forall k {:trigger ms[k]} :: 0 <= k < |ihs| ==>
              ihs[k].Contents() == Part(ms[k], rows, |ms|, k, |rows|, Inserts(stop, |rows|, k))
  {
    for i := 0 to |rows|
      invariant Trees(ihs) && (stop.Some? ==> i <= stop.value.row)
      invariant forall k {:trigger ms[k]} :: 0 <= k < |ihs| ==>
                  ihs[k].Contents() == Part(ms[k], rows, |ms|, k, |rows|, i)
    {
      r := InsertRow(ihs, rows, i, stop, ms, keyOf);
      if r != Done {
        return;
      }
    }
    r := Done;
  }

  predicate Within(stop: Option<Stop>, rows: nat, n: nat) {
    stop.Some? ==> stop.value.row < rows && stop.value.index < n
  }

  /** The tree part of UPDATE. Unless an index operation fails it goes through, and every index ends as
      `{key(new row) -> rid}`. */
  method Rekey(ihs: seq<IxIndexHandle>, rows: seq<Pending>, stop: Option<Stop>, ghost ms: seq<Index>,
               ghost keyOf: seq<map<Rid, Key>>)
      returns (r: Outcome)
    requires Trees(ihs) && |ms| == |ihs| && Ready(ms, keyOf, rows) && Within(stop, |rows|, |ihs|)
    requires forall k {:trigger ms[k]} :: 0 <= k < |ihs| ==> ihs[k].Contents() == ms[k]
    modifies ihs
    ensures Trees(ihs) && r == (if stop.Some? then Interrupted else Done) && StoppedAt(ihs, ms, rows, stop)
    ensures r == Done ==> forall k {:trigger ms[k]} :: 0 <= k < |ihs| ==>
              IndexIs(ihs[k].Contents(), NewKeys(keyOf[k], rows, |ms|, k, |rows|))
  {
    r := DeleteOldKeys(ihs, rows, stop, ms, keyOf);
    if r != Done {
      return;
    }
    r := InsertNewKeys(ihs, rows, stop, ms, keyOf);
    forall k | 0 <= k < |ihs|
      ensures IndexIs(Part(ms[k], rows, |ms|, k, |rows|, |rows|), NewKeys(keyOf[k], rows, |ms|, k, |rows|))
    {
      RekeyedIs(ms[k], keyOf[k], rows, |ms|, k);
    }
  }

  /** The check inside the batch: a second row taking the same key of the same index is an error. */
  method CheckNewKeys(rows: seq<Pending>, n: nat) returns (r: Outcome)
    requires Shaped(rows, n)
    ensures r == if forall k {:trigger NewKeysDiffer(rows, n, k)} :: 0 <= k < n ==>
              NewKeysDiffer(rows, n, k) then Done else DuplicateKey
  {
    var seen: set<(int, Key)> := {};
    for i := 0 to |rows|
      invariant forall e :: e in seen <==> 0 <= e.0 < n && TakenIn(rows, n, e.0, 0, i, e.1)
      invariant forall k {:trigger NewKeysDiffer(rows[..i], n, k)} :: 0 <= k < n ==> NewKeysDiffer(rows[..i], n, k)
    {
      for k := 0 to n
        invariant forall e :: e in seen <==> 0 <= e.0 < n && TakenIn(rows, n, e.0, 0, if e.0 < k then i + 1 else i, e.1)
        invariant forall q {:trigger NewKeysDiffer(rows[..i + 1], n, q)} :: 0 <= q < k ==>
                    NewKeysDiffer(rows[..i + 1], n, q)
      {
        if Changed(rows[i], k) {
          var e := (k, rows[i].new_[k]);
          if e in seen {
            ghost var j :| 0 <= j < i && Takes(rows, n, k, j, e.1);
            assert Changed(rows[j], k) && Changed(rows[i], k);
            assert !NewKeysDiffer(rows, n, k);
            return DuplicateKey;
          }
          assert forall j :: 0 <= j < i ==> !Takes(rows, n, k, j, e.1);
          seen := seen + {e};
        }
        forall key ensures TakenIn(rows, n, k, 0, i + 1, key) <==>
            TakenIn(rows, n, k, 0, i, key) || Takes(rows, n, k, i, key) {
          TakenStep(rows, n, k, i, key);
        }
        DifferMore(rows, n, k, i);
      }
    }
    assert rows[..|rows|] == rows;
    r := Done;
  }

  lemma TakenStep(rows: seq<Pending>, n: nat, k: nat, i: nat, key: Key)
    requires Shaped(rows, n) && k < n && i < |rows|
    ensures TakenIn(rows, n, k, 0, i + 1, key) <==> TakenIn(rows, n, k, 0, i, key) || Takes(rows, n, k, i, key)
  {
    if TakenIn(rows, n, k, 0, i, key) {
      var j :| 0 <= j < i && Takes(rows, n, k, j, key);
      assert j < i + 1;
    }
  }

  lemma DifferMore(rows: seq<Pending>, n: nat, k: nat, i: nat)
    requires Shaped(rows, n) && k < n && i < |rows| && Shaped(rows[..i], n) && NewKeysDiffer(rows[..i], n, k)
    requires forall j :: 0 <= j < i && Changed(rows[i], k) ==> !Takes(rows, n, k, j, rows[i].new_[k])
    ensures Shaped(rows[..i + 1], n) && NewKeysDiffer(rows[..i + 1], n, k)
  {
    forall a, b | 0 <= a < b < i + 1 && Changed(rows[a], k) && Changed(rows[b], k)
      ensures rows[a].new_[k] != rows[b].new_[k]
    {
      if b == i {
        assert !Takes(rows, n, k, a, rows[i].new_[k]);
      } else {
        assert Changed(rows[..i][a], k) && Changed(rows[..i][b], k);
      }
    }
  }

  // ---------------------------------------------------------------- rollback

  /** Row `i` wants a key back that an earlier row of the statement takes. */
  ghost predicate ClashAt(rows: seq<Pending>, n: nat, k: nat, i: nat)
    requires Shaped(rows, n) && k < n && i < |rows|
  {
    Changed(rows[i], k) && TakenIn(rows, n, k, 0, i, rows[i].old_[k])
  }

  ghost predicate Clashes(rows: seq<Pending>, n: nat)
    requires Shaped(rows, n)
  {
    exists k, i {:trigger ClashAt(rows, n, k, i)} :: 0 <= k < n && 0 <= i < |rows| && ClashAt(rows, n, k, i)
  }

  /** An earlier row sits on the key that row `i` wants back, its insert being one of the first `e`. */
  ghost predicate BlockedAt(rows: seq<Pending>, n: nat, k: nat, e: nat, i: nat)
    requires Shaped(rows, n) && k < n && i < |rows|
  {
    Changed(rows[i], k) && TakenIn(rows, n, k, 0, if i < e then i else e, rows[i].old_[k])
  }

  ghost predicate RowBlocked(rows: seq<Pending>, n: nat, stop: Option<Stop>, i: nat)
    requires Shaped(rows, n) && InReach(stop, |rows|) && i < |rows|
  {
    exists k {:trigger BlockedAt(rows, n, k, Inserts(stop, |rows|, k), i)} ::
      0 <= k < n && BlockedAt(rows, n, k, Inserts(stop, |rows|, k), i)
  }

  ghost predicate Blocked(rows: seq<Pending>, n: nat, stop: Option<Stop>)
    requires Shaped(rows, n) && InReach(stop, |rows|)
  {
    exists i {:trigger RowBlocked(rows, n, stop, i)} :: 0 <= i < |rows| && RowBlocked(rows, n, stop, i)
  }

  /** A key that a row wants back and an earlier row takes. */
  ghost predicate Lost(rows: seq<Pending>, n: nat, k: nat, key: Key)
    requires Shaped(rows, n) && k < n
  {
    exists i {:trigger Gives(rows, n, k, i, key)} ::
        0 <= i < |rows| && Gives(rows, n, k, i, key) && TakenIn(rows, n, k, 0, i, key)
  }

  /** What an undo that goes through leaves of the index. */
  ghost function Restored(m: Index, rows: seq<Pending>, n: nat, k: nat): Index
    requires Shaped(rows, n) && k < n
  {
    map key | key in m && !Lost(rows, n, k, key) :: m[key]
  }

  /** The index `s` when the rows from `c` on are undone: each drops its new key and puts its old one back. */
  ghost function Undo(s: Index, rows: seq<Pending>, n: nat, k: nat, c: nat): Index
    requires Shaped(rows, n) && k < n && c <= |rows|
    decreases |rows| - c
  {
    if c == |rows| then s
    else if Changed(rows[c], k) then (Undo(s, rows, n, k, c + 1) - {rows[c].new_[k]})[rows[c].old_[k] := rows[c].rid]
    else Undo(s, rows, n, k, c + 1)
  }

  /** Row `c` has just dropped its new key. */
  ghost function Dropped(s: Index, rows: seq<Pending>, n: nat, k: nat, c: nat): Index
    requires Shaped(rows, n) && k < n && c < |rows|
  {
    if Changed(rows[c], k) then Undo(s, rows, n, k, c + 1) - {rows[c].new_[k]} else Undo(s, rows, n, k, c + 1)
  }

  /** A key after the undo of the rows from `c` on. One that such a row gives is back unless a row between
      takes it; any other that such a row takes is gone; the rest is as before. */
  ghost predicate UndoneAt(u: Index, s: Index, rows: seq<Pending>, n: nat, k: nat, c: nat, key: Key)
    requires Shaped(rows, n) && k < n && c <= |rows|
  {
    && (forall i {:trigger Gives(rows, n, k, i, key)} :: c <= i < |rows| && Gives(rows, n, k, i, key) ==>
          if TakenIn(rows, n, k, c, i, key) then key !in u else key in u && u[key] == rows[i].rid)
    && (!GivenIn(rows, n, k, c, |rows|, key) && TakenIn(rows, n, k, c, |rows|, key) ==> key !in u)
    && (!GivenIn(rows, n, k, c, |rows|, key) && !TakenIn(rows, n, k, c, |rows|, key) ==>
          (key in u <==> key in s) && (key in u ==> u[key] == s[key]))
  }

  lemma {:induction false} UndoIs(s: Index, m: Index, keyOf: map<Rid, Key>, rows: seq<Pending>, n: nat, k: nat, c: nat,
                                  key: Key)
    requires Shaped(rows, n) && k < n && IndexIs(m, keyOf) && RowsOf(rows, n, k, keyOf) && c <= |rows|
    ensures UndoneAt(Undo(s, rows, n, k, c), s, rows, n, k, c, key)
    decreases |rows| - c
  {
    if c < |rows| {
      UndoIs(s, m, keyOf, rows, n, k, c + 1, key);
      if Gives(rows, n, k, c, key) {
        UndoGiven(Undo(s, rows, n, k, c), s, m, keyOf, rows, n, k, c, key);
      } else if Takes(rows, n, k, c, key) {
        UndoTaken(Undo(s, rows, n, k, c), s, rows, n, k, c, key);
      } else {
        UndoSame(Undo(s, rows, n, k, c + 1), Undo(s, rows, n, k, c), s, rows, n, k, c, key);
      }
    }
  }

  lemma UndoGiven(u: Index, s: Index, m: Index, keyOf: map<Rid, Key>, rows: seq<Pending>, n: nat, k: nat, c: nat,
                  key: Key)
    requires Shaped(rows, n) && k < n && IndexIs(m, keyOf) && RowsOf(rows, n, k, keyOf) && c < |rows|
    requires Gives(rows, n, k, c, key) && key in u && u[key] == rows[c].rid
    ensures UndoneAt(u, s, rows, n, k, c, key)
  {
    forall i | c < i < |rows| ensures !Gives(rows, n, k, i, key) { GivenOnce(m, keyOf, rows, n, k, i, c); }
    assert GivenIn(rows, n, k, c, |rows|, key);
  }

  lemma UndoTaken(u: Index, s: Index, rows: seq<Pending>, n: nat, k: nat, c: nat, key: Key)
    requires Shaped(rows, n) && k < n && c < |rows| && Takes(rows, n, k, c, key) && !Gives(rows, n, k, c, key)
             && key !in u
    ensures UndoneAt(u, s, rows, n, k, c, key)
  {
    forall i | c < i <= |rows| ensures TakenIn(rows, n, k, c, i, key) { }
  }

  /** A row that neither gives nor takes the key changes nothing about it. */
  lemma UndoSame(v: Index, u: Index, s: Index, rows: seq<Pending>, n: nat, k: nat, c: nat, key: Key)
    requires Shaped(rows, n) && k < n && c < |rows| && !Takes(rows, n, k, c, key) && !Gives(rows, n, k, c, key)
    requires UndoneAt(v, s, rows, n, k, c + 1, key) && (key in u <==> key in v) && (key in u ==> u[key] == v[key])
    ensures UndoneAt(u, s, rows, n, k, c, key)
  {
    forall i | c < i <= |rows| ensures TakenIn(rows, n, k, c, i, key) <==> TakenIn(rows, n, k, c + 1, i, key) {
      if TakenIn(rows, n, k, c, i, key) {
        var j :| c <= j < i && Takes(rows, n, k, j, key);
        assert j != c;
      }
    }
    if GivenIn(rows, n, k, c, |rows|, key) {
      var j :| c <= j < |rows| && Gives(rows, n, k, j, key);
      assert j != c && GivenIn(rows, n, k, c + 1, |rows|, key);
    }
  }

  /** The old key of the row belongs to another one. */
  ghost predicate OtherHolds(t: Index, row: Pending, k: nat)
    requires k < |row.old_|
  {
    row.old_[k] in t && t[row.old_[k]] != row.rid
  }

  /** When row `c` has dropped its new key, its old one belongs to another row exactly when it is blocked. */
  lemma OldKeyTaken(m: Index, keyOf: map<Rid, Key>, rows: seq<Pending>, n: nat, k: nat, d: nat, e: nat, c: nat)
    requires Shaped(rows, n) && k < n && IndexIs(m, keyOf) && RowsOf(rows, n, k, keyOf) && NewKeysDiffer(rows, n, k)
    requires d <= |rows| && e <= |rows| && c < |rows| && Changed(rows[c], k)
    ensures OtherHolds(Dropped(Part(m, rows, n, k, d, e), rows, n, k, c), rows[c], k) <==> BlockedAt(rows, n, k, e, c)
  {
    var s, key := Part(m, rows, n, k, d, e), rows[c].old_[k];
    UndoIs(s, m, keyOf, rows, n, k, c + 1, key);
    PartAt(m, rows, n, k, d, e, key);
    assert Gives(rows, n, k, c, key) && !Takes(rows, n, k, c, key);
    forall i | c < i < |rows| ensures !Gives(rows, n, k, i, key) { GivenOnce(m, keyOf, rows, n, k, i, c); }
    assert keyOf[rows[c].rid] == key && key in m && m[key] == rows[c].rid;
    if j :| 0 <= j < |rows| && Takes(rows, n, k, j, key) {
      TakenOnce(rows, n, k, j, key);
      assert j != c && rows[j].rid != rows[c].rid;
      assert BlockedAt(rows, n, k, e, c) <==> j < c && j < e;
    } else {
      assert !BlockedAt(rows, n, k, e, c);
    }
  }

  lemma TakenOnce(rows: seq<Pending>, n: nat, k: nat, j: nat, key: Key)
    requires Shaped(rows, n) && k < n && NewKeysDiffer(rows, n, k) && j < |rows| && Takes(rows, n, k, j, key)
    ensures forall lo: nat, hi: nat {:trigger TakenIn(rows, n, k, lo, hi, key)} :: hi <= |rows| ==>
              (TakenIn(rows, n, k, lo, hi, key) <==> lo <= j < hi)
  {
    forall i | 0 <= i < |rows| && Takes(rows, n, k, i, key) ensures i == j { }
  }

  /** Undone to the first row, from wherever the statement stopped, the index has lost exactly the keys
      that a row wants back and an earlier row takes. */
  lemma UndoneIs(m: Index, keyOf: map<Rid, Key>, rows: seq<Pending>, n: nat, k: nat, d: nat, e: nat)
    requires Shaped(rows, n) && k < n && IndexIs(m, keyOf) && RowsOf(rows, n, k, keyOf) && NewKeysDiffer(rows, n, k)
             && Accepted(rows, n, k, m)
    requires d <= |rows| && e <= |rows|
    ensures Undo(Part(m, rows, n, k, d, e), rows, n, k, 0) == Restored(m, rows, n, k)
  {
    var u, w := Undo(Part(m, rows, n, k, d, e), rows, n, k, 0), Restored(m, rows, n, k);
    forall key ensures (key in u <==> key in w) && (key in u ==> u[key] == w[key]) {
      UndoneKey(m, keyOf, rows, n, k, d, e, key);
    }
    assert u == w;
  }

  lemma UndoneKey(m: Index, keyOf: map<Rid, Key>, rows: seq<Pending>, n: nat, k: nat, d: nat, e: nat, key: Key)
    requires Shaped(rows, n) && k < n && IndexIs(m, keyOf) && RowsOf(rows, n, k, keyOf) && NewKeysDiffer(rows, n, k)
             && Accepted(rows, n, k, m)
    requires d <= |rows| && e <= |rows|
    ensures var u, w := Undo(Part(m, rows, n, k, d, e), rows, n, k, 0), Restored(m, rows, n, k);
            (key in u <==> key in w) && (key in u ==> u[key] == w[key])
  {
    UndoIs(Part(m, rows, n, k, d, e), m, keyOf, rows, n, k, 0, key);
    PartAt(m, rows, n, k, d, e, key);
    if i :| 0 <= i < |rows| && Gives(rows, n, k, i, key) {
      assert keyOf[rows[i].rid] == key && key in m && m[key] == rows[i].rid;
      forall j | 0 <= j < |rows| && j != i ensures !Gives(rows, n, k, j, key) { GivenOnce(m, keyOf, rows, n, k, i, j); }
      assert Lost(rows, n, k, key) <==> TakenIn(rows, n, k, 0, i, key);
    } else {
      assert !GivenIn(rows, n, k, 0, |rows|, key) && !Lost(rows, n, k, key);
      if j :| 0 <= j < |rows| && Takes(rows, n, k, j, key) {
        assert Changed(rows[j], k) && key !in m;
      }
    }
  }

  /** Nothing is lost exactly when no row clashes. */
  lemma RestoredIff(m: Index, keyOf: map<Rid, Key>, rows: seq<Pending>, n: nat, k: nat)
    requires Shaped(rows, n) && k < n && IndexIs(m, keyOf) && RowsOf(rows, n, k, keyOf)
    ensures Restored(m, rows, n, k) == m <==> forall i {:trigger ClashAt(rows, n, k, i)} :: 0 <= i < |rows| ==>
              !ClashAt(rows, n, k, i)
  {
    forall key | Lost(rows, n, k, key)
      ensures exists i {:trigger ClashAt(rows, n, k, i)} :: 0 <= i < |rows| && ClashAt(rows, n, k, i)
    {
      var i :| 0 <= i < |rows| && Gives(rows, n, k, i, key) && TakenIn(rows, n, k, 0, i, key);
      assert ClashAt(rows, n, k, i);
    }
    if i :| 0 <= i < |rows| && ClashAt(rows, n, k, i) {
      var key := rows[i].old_[k];
      assert keyOf[rows[i].rid] == key && key in m;
      assert Gives(rows, n, k, i, key) && Lost(rows, n, k, key) && key !in Restored(m, rows, n, k);
    } else {
      assert Restored(m, rows, n, k) == m;
    }
  }

  /** `DeleteChangedIfPresent`: drops the new keys of the row. */
  method DropNewKeys(ihs: seq<IxIndexHandle>, rows: seq<Pending>, c: nat, ghost ss: seq<Index>)
    requires Trees(ihs) && |ss| == |ihs| && Shaped(rows, |ss|) && c < |rows|
    requires forall k {:trigger ss[k]} :: 0 <= k < |ihs| ==> ihs[k].Contents() == Undo(ss[k], rows, |ss|, k, c + 1)
    modifies ihs
    ensures Trees(ihs)
    ensures forall k {:trigger ss[k]} :: 0 <= k < |ihs| ==> ihs[k].Contents() == Dropped(ss[k], rows, |ss|, k, c)
  {
    for k := 0 to |ihs|
      invariant Trees(ihs)
      invariant forall q {:trigger ss[q]} :: 0 <= q < |ihs| ==>
                  ihs[q].Contents() == if q < k then Dropped(ss[q], rows, |ss|, q, c)
                      else Undo(ss[q], rows, |ss|, q, c + 1)
    {
      DropOne(ihs, rows, c, k, ss[k]);
    }
  }

  method DropOne(ihs: seq<IxIndexHandle>, rows: seq<Pending>, c: nat, k: nat, ghost s: Index)
    requires Trees(ihs) && Shaped(rows, |ihs|) && c < |rows| && k < |ihs|
    requires ihs[k].Contents() == Undo(s, rows, |ihs|, k, c + 1)
    modifies ihs[k]
    ensures Trees(ihs) && ihs[k].Contents() == Dropped(s, rows, |ihs|, k, c)
    ensures forall q {:trigger ihs[q].Contents()} :: 0 <= q < |ihs| && q != k ==>
              ihs[q].Contents() == old(ihs[q].Contents())
  {
    if Changed(rows[c], k) {
      var found := DeleteAt(ihs, k, rows[c].new_[k]);
    }
  }

  /** Inserts the pair unless it is there; the key with another RID is a failure. */
  method InsertIfMissing(ihs: seq<IxIndexHandle>, k: nat, key: Key, rid: Rid) returns (ok: bool)
    requires Trees(ihs) && k < |ihs|
    modifies ihs[k]
    ensures Trees(ihs) && (ok <==> key !in old(ihs[k].Contents()) || old(ihs[k].Contents())[key] == rid)
    ensures ihs[k].Contents() == if ok then old(ihs[k].Contents())[key := rid] else old(ihs[k].Contents())
    ensures forall q {:trigger ihs[q].Contents()} :: 0 <= q < |ihs| && q != k ==>
              ihs[q].Contents() == old(ihs[q].Contents())
  {
    var found, other := ihs[k].GetValue(key, null);
    if found {
      ok := other == rid;
      assert ok ==> ihs[k].Contents() == ihs[k].Contents()[key := rid];
    } else {
      ok := InsertInto(ihs, k, key, rid);
    }
  }

  /** What the statement left of the indexes. */
  ghost predicate LeftBy(ss: seq<Index>, ms: seq<Index>, rows: seq<Pending>, stop: Option<Stop>)
    requires |ss| == |ms| && Shaped(rows, |ms|) && InReach(stop, |rows|)
  {
    forall k {:trigger ss[k]} {:trigger ms[k]} :: 0 <= k < |ms| ==>
      ss[k] == Part(ms[k], rows, |ms|, k, Deletes(stop, |rows|, k), Inserts(stop, |rows|, k))
  }

  /** Of each row and index: whether the row will find its old key held by another. */
  ghost predicate Foretold(ss: seq<Index>, rows: seq<Pending>, stop: Option<Stop>)
    requires Shaped(rows, |ss|) && InReach(stop, |rows|)
  {
    forall k, c {:trigger Dropped(ss[k], rows, |ss|, k, c)} ::
        0 <= k < |ss| && 0 <= c < |rows| && Changed(rows[c], k) ==>
      (OtherHolds(Dropped(ss[k], rows, |ss|, k, c), rows[c], k) <==>
          BlockedAt(rows, |ss|, k, Inserts(stop, |rows|, k), c))
  }

  lemma Foretell(ss: seq<Index>, ms: seq<Index>, keyOf: seq<map<Rid, Key>>, rows: seq<Pending>, stop: Option<Stop>)
    requires |ss| == |ms| && Ready(ms, keyOf, rows) && InReach(stop, |rows|) && LeftBy(ss, ms, rows, stop)
    ensures Foretold(ss, rows, stop)
  {
    forall k, c | 0 <= k < |ss| && 0 <= c < |rows| && Changed(rows[c], k)
      ensures OtherHolds(Dropped(ss[k], rows, |ss|, k, c), rows[c], k) <==>
                BlockedAt(rows, |ss|, k, Inserts(stop, |rows|, k), c)
    {
      OldKeyTaken(ms[k], keyOf[k], rows, |ms|, k, Deletes(stop, |rows|, k), Inserts(stop, |rows|, k), c);
    }
  }

  method RestoreOne(ihs: seq<IxIndexHandle>, rows: seq<Pending>, c: nat, k: nat, ghost s: Index) returns (ok: bool)
    requires Trees(ihs) && Shaped(rows, |ihs|) && c < |rows| && k < |ihs|
    requires ihs[k].Contents() == Dropped(s, rows, |ihs|, k, c)
    modifies ihs[k]
    ensures Trees(ihs) && (ok <==> !(Changed(rows[c], k) && OtherHolds(Dropped(s, rows, |ihs|, k, c), rows[c], k)))
    ensures ok ==> ihs[k].Contents() == Undo(s, rows, |ihs|, k, c)
    ensures forall q {:trigger ihs[q].Contents()} :: 0 <= q < |ihs| && q != k ==>
              ihs[q].Contents() == old(ihs[q].Contents())
  {
    ok := true;
    if Changed(rows[c], k) {
      ok := InsertIfMissing(ihs, k, rows[c].old_[k], rows[c].rid);
    }
  }

  /** `InsertChangedIfMissingStrict`: puts the old keys of the row back; a key that another row sits on
      is an error. */
  method RestoreOldKeys(ihs: seq<IxIndexHandle>, rows: seq<Pending>, c: nat, ghost stop: Option<Stop>,
                        ghost ss: seq<Index>)
      returns (r: Outcome)
    requires Trees(ihs) && |ss| == |ihs| && Shaped(rows, |ss|) && c < |rows| && InReach(stop, |rows|)
             && Foretold(ss, rows, stop)
    requires forall k {:trigger ss[k]} :: 0 <= k < |ihs| ==> ihs[k].Contents() == Dropped(ss[k], rows, |ss|, k, c)
    modifies ihs
    ensures Trees(ihs) && r == if RowBlocked(rows, |ss|, stop, c) then DuplicateKey else Done
    ensures r == Done ==> forall k {:trigger ss[k]} :: 0 <= k < |ihs| ==>
              ihs[k].Contents() == Undo(ss[k], rows, |ss|, k, c)
  {
    for k := 0 to |ihs|
      invariant Trees(ihs)
      invariant forall q {:trigger ss[q]} :: 0 <= q < |ihs| ==>
                  ihs[q].Contents() == if q < k then Undo(ss[q], rows, |ss|, q, c) else Dropped(ss[q], rows, |ss|, q, c)
      invariant forall q :: 0 <= q < k ==> !BlockedAt(rows, |ss|, q, Inserts(stop, |rows|, q), c)
    {
      var ok := RestoreOne(ihs, rows, c, k, ss[k]);
      if !ok {
        assert BlockedAt(rows, |ss|, k, Inserts(stop, |rows|, k), c);
        return DuplicateKey;
      }
    }
    r := Done;
  }

  /** The tree part of an abort, from wherever the UPDATE stopped. It restores every index exactly if and
      only if no row wants a key back that an earlier row of the statement takes. Otherwise it stops with
      a duplicate key, which ends the process, when such an earlier row is already on its new key; and
      when none is, it goes through and those keys are lost. */
  method Rollback(ihs: seq<IxIndexHandle>, rows: seq<Pending>, ghost ms: seq<Index>, ghost keyOf: seq<map<Rid, Key>>,
                  ghost stop: Option<Stop>)
      returns (r: Outcome)
    requires Trees(ihs) && |ms| == |ihs| && Ready(ms, keyOf, rows) && InReach(stop, |rows|)
             && StoppedAt(ihs, ms, rows, stop)
    modifies ihs
    ensures Trees(ihs) && r == if Blocked(rows, |ms|, stop) then DuplicateKey else Done
    ensures r == Done ==> forall k {:trigger ms[k]} :: 0 <= k < |ihs| ==>
              ihs[k].Contents() == Restored(ms[k], rows, |ms|, k)
    ensures r == Done && (forall k {:trigger ms[k]} :: 0 <= k < |ihs| ==> ihs[k].Contents() == ms[k]) <==>
              !Clashes(rows, |ms|)
  {
    ghost var ss := Captured(ihs);
    Foretell(ss, ms, keyOf, rows, stop);
    assert UndoAll(ss, rows, |rows|) == ss;
    r := UndoRows(ihs, rows, stop, ss);
    if r == Done {
      assert forall k {:trigger ms[k]} :: 0 <= k < |ihs| ==> Captured(ihs)[k] == UndoAll(ss, rows, 0)[k];
      AllUndone(ms, keyOf, rows, stop, ss);
      AllRestoredIff(ms, keyOf, rows);
    }
  }

  method UndoRows(ihs: seq<IxIndexHandle>, rows: seq<Pending>, ghost stop: Option<Stop>, ghost ss: seq<Index>)
      returns (r: Outcome)
    requires Trees(ihs) && |ss| == |ihs| && Shaped(rows, |ss|) && InReach(stop, |rows|) && Foretold(ss, rows, stop)
    requires UndoneTo(ihs, ss, rows, |rows|)
    modifies ihs
    ensures Trees(ihs) && r == if Blocked(rows, |ss|, stop) then DuplicateKey else Done
    ensures if r == Done then UndoneTo(ihs, ss, rows, 0) else Clashes(rows, |ss|)
  {
    for c := |rows| downto 0
      invariant Trees(ihs) && NoneBlocked(rows, |ss|, stop, c) && UndoneTo(ihs, ss, rows, c)
    {
      r := UndoRow(ihs, rows, c, stop, ss);
      if r != Done {
        BlockedClashes(rows, |ss|, stop, c);
        return;
      }
      OneMoreFree(rows, |ss|, stop, c);
    }
    r := Done;
  }

  ghost function Captured(ihs: seq<IxIndexHandle>): (ss: seq<Index>)
    reads ihs
    ensures |ss| == |ihs| && forall k {:trigger ss[k]} :: 0 <= k < |ihs| ==> ss[k] == ihs[k].Contents()
  {
    seq(|ihs|, k requires 0 <= k < |ihs| reads ihs => ihs[k].Contents())
  }

  /** The trees hold the indexes `ss` with the rows from `c` on undone. */
  ghost predicate UndoneTo(ihs: seq<IxIndexHandle>, ss: seq<Index>, rows: seq<Pending>, c: nat)
    requires |ss| == |ihs| && Shaped(rows, |ss|) && c <= |rows|
    reads ihs
  {
    Captured(ihs) == UndoAll(ss, rows, c)
  }

  ghost function UndoAll(ss: seq<Index>, rows: seq<Pending>, c: nat): (us: seq<Index>)
    requires Shaped(rows, |ss|) && c <= |rows|
    ensures |us| == |ss| && forall k {:trigger us[k]} :: 0 <= k < |ss| ==> us[k] == Undo(ss[k], rows, |ss|, k, c)
  {
    seq(|ss|, k requires 0 <= k < |ss| => Undo(ss[k], rows, |ss|, k, c))
  }

  ghost predicate NoneBlocked(rows: seq<Pending>, n: nat, stop: Option<Stop>, c: nat)
    requires Shaped(rows, n) && InReach(stop, |rows|)
  {
    forall i {:trigger RowBlocked(rows, n, stop, i)} :: c <= i < |rows| ==> !RowBlocked(rows, n, stop, i)
  }

  lemma OneMoreFree(rows: seq<Pending>, n: nat, stop: Option<Stop>, c: nat)
    requires Shaped(rows, n) && InReach(stop, |rows|) && c < |rows| && NoneBlocked(rows, n, stop, c + 1)
             && !RowBlocked(rows, n, stop, c)
    ensures NoneBlocked(rows, n, stop, c)
  {
  }

  /** The abort of one row of the write set. */
  method UndoRow(ihs: seq<IxIndexHandle>, rows: seq<Pending>, c: nat, ghost stop: Option<Stop>, ghost ss: seq<Index>)
      returns (r: Outcome)
    requires Trees(ihs) && |ss| == |ihs| && Shaped(rows, |ss|) && c < |rows| && InReach(stop, |rows|)
             && Foretold(ss, rows, stop)
    requires UndoneTo(ihs, ss, rows, c + 1)
    modifies ihs
    ensures Trees(ihs) && r == if RowBlocked(rows, |ss|, stop, c) then DuplicateKey else Done
    ensures r == Done ==> UndoneTo(ihs, ss, rows, c)
  {
    assert forall k {:trigger ss[k]} :: 0 <= k < |ihs| ==> Captured(ihs)[k] == UndoAll(ss, rows, c + 1)[k];
    DropNewKeys(ihs, rows, c, ss);
    r := RestoreOldKeys(ihs, rows, c, stop, ss);
    assert r == Done ==> forall k :: 0 <= k < |ihs| ==> Captured(ihs)[k] == UndoAll(ss, rows, c)[k];
  }

  lemma AllUndone(ms: seq<Index>, keyOf: seq<map<Rid, Key>>, rows: seq<Pending>, stop: Option<Stop>, ss: seq<Index>)
    requires |ss| == |ms| && Ready(ms, keyOf, rows) && InReach(stop, |rows|) && LeftBy(ss, ms, rows, stop)
    ensures forall k {:trigger ss[k]} {:trigger ms[k]} :: 0 <= k < |ms| ==>
              Undo(ss[k], rows, |ms|, k, 0) == Restored(ms[k], rows, |ms|, k)
  {
    forall k | 0 <= k < |ms| ensures Undo(ss[k], rows, |ms|, k, 0) == Restored(ms[k], rows, |ms|, k) {
      UndoneIs(ms[k], keyOf[k], rows, |ms|, k, Deletes(stop, |rows|, k), Inserts(stop, |rows|, k));
    }
  }

  lemma BlockedClashes(rows: seq<Pending>, n: nat, stop: Option<Stop>, c: nat)
    requires Shaped(rows, n) && InReach(stop, |rows|) && c < |rows| && RowBlocked(rows, n, stop, c)
    ensures Blocked(rows, n, stop) && Clashes(rows, n)
  {
    var k :| 0 <= k < n && BlockedAt(rows, n, k, Inserts(stop, |rows|, k), c);
    assert ClashAt(rows, n, k, c);
  }

  lemma AllRestoredIff(ms: seq<Index>, keyOf: seq<map<Rid, Key>>, rows: seq<Pending>)
    requires Ready(ms, keyOf, rows)
    ensures (forall k {:trigger ms[k]} :: 0 <= k < |ms| ==> Restored(ms[k], rows, |ms|, k) == ms[k]) <==>
              !Clashes(rows, |ms|)
  {
    forall k | 0 <= k < |ms|
      ensures Restored(ms[k], rows, |ms|, k) == ms[k] <==>
                forall i {:trigger ClashAt(rows, |ms|, k, i)} :: 0 <= i < |rows| ==> !ClashAt(rows, |ms|, k, i)
    {
      RestoredIff(ms[k], keyOf[k], rows, |ms|, k);
    }
    if Clashes(rows, |ms|) {
      var k, i :| 0 <= k < |ms| && 0 <= i < |rows| && ClashAt(rows, |ms|, k, i);
      assert Restored(ms[k], rows, |ms|, k) != ms[k];
    }
  }

  /** Shifting keys 1 and 2 up by one in ascending order is a statement UPDATE completes and an abort
      cannot undo; stopped before its first insert, the abort goes through and loses key 2. */
  lemma ShiftClashes() returns (ms: seq<Index>, keyOf: seq<map<Rid, Key>>, rows: seq<Pending>)
    ensures Ready(ms, keyOf, rows) && Clashes(rows, |ms|) && Blocked(rows, |ms|, None)
    ensures |ms| == 1 && |rows| == 2 && rows[0].old_ == [1] && rows[0].new_ == [2] && rows[1].old_ == [2]
            && rows[1].new_ == [3]
    ensures !Blocked(rows, |ms|, Some(Stop(true, 0, 0))) && 2 in ms[0] && 2 !in Restored(ms[0], rows, 1, 0)
  {
    var a, b := Rid(1, 0), Rid(1, 1);
    ms, keyOf := [map[1 := a, 2 := b]], [map[a := 1, b := 2]];
    rows := [Pending(a, [1], [2]), Pending(b, [2], [3])];
    assert Takes(rows, 1, 0, 0, 2) && Gives(rows, 1, 0, 1, 2);
    assert ClashAt(rows, 1, 0, 1) && Lost(rows, 1, 0, 2);
    assert BlockedAt(rows, 1, 0, Inserts(None, 2, 0), 1) && RowBlocked(rows, 1, None, 1);
    assert 2 !in Restored(ms[0], rows, 1, 0);
  }
}
