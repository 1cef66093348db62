/** Collecting index candidates while writers are active.

    A reader repeats "scan the tree, then look into the stale registry" until the handoff epoch is
    the same before and after the round. What one round saw is a value of type `Pass`; `Witnessed`
    ties the passes to moments of a run of `MvccProtocol`. */
module MvccProbe {
  import opened Basics
  import opened MvccProtocol
  import IxModel
  import opened IxIndex
  import IxRuns
  import IxScan
  import SkipScan

  /** One round: RIDs from the tree, RIDs from the registry, and the epoch read afterwards. */
  datatype Pass = Pass(tree: seq<Rid>, stale: seq<Rid>, after: nat)

  /** Moments of one round: it begins, the registry is read, the epoch is read. The tree is read
      key by key anywhere between the first two. */
  datatype Moments = Moments(begin: nat, registry: nat, end: nat)

  predicate Within(k: Key, lower: Key, upper: Key) { lower <= k <= upper }

  ghost function Range(lower: Key, upper: Key): iset<Key> {
    iset k | Within(k, lower, upper)
  }

  ghost predicate InOrder(states: seq<State>, m: Moments) {
    m.begin <= m.registry <= m.end < |states|
  }

  /** Some moment in `[from, to]` had no entry for `k` beyond those in `rids`. */
  ghost predicate TreeSeen(states: seq<State>, from: nat, to: nat, k: Key, rids: seq<Rid>)
    requires from <= to < |states|
  {
    exists t :: from <= t <= to && (k in states[t].tree ==> states[t].tree[k] in rids)
  }

  ghost predicate Sees(states: seq<State>, m: Moments, r: nat, keys: iset<Key>, p: Pass) {
    && InOrder(states, m)
    && (forall k {:trigger TreeSeen(states, m.begin, m.registry, k, p.tree)} :: k in keys ==>
          TreeSeen(states, m.begin, m.registry, k, p.tree))
    && (forall k, rid {:trigger InStale(states[m.registry], r, k, rid)} ::
        k in keys && InStale(states[m.registry], r, k, rid) ==>
          rid in p.stale)
    && p.after == states[m.end].epoch
  }

  ghost predicate Witnessed(states: seq<State>, id: int, r: nat, keys: iset<Key>, start: nat, passes: seq<Pass>,
                            moments: seq<Moments>) {
    && Run(states) && |moments| == |passes| && start < |states|
    && (forall t {:trigger states[t]} :: start <= t < |states| ==>
        id in states[t].readers && states[t].readers[id] == r)
    && (forall i {:trigger PassOk(states, r, keys, start, passes, moments, i)} :: 0 <= i < |passes| ==>
          PassOk(states, r, keys, start, passes, moments, i))
  }

  ghost predicate PassOk(states: seq<State>, r: nat, keys: iset<Key>, start: nat, passes: seq<Pass>,
                         moments: seq<Moments>, i: int)
    requires |moments| == |passes| && 0 <= i < |passes|
  {
    Sees(states, moments[i], r, keys, passes[i]) && Since(start, moments, i) <= moments[i].begin
  }

  /** When the epoch that round `i` starts from was read. */
  ghost function Since(start: nat, moments: seq<Moments>, i: int): nat
    requires 0 <= i < |moments|
  {
    if i == 0 then start else moments[i - 1].end
  }

  /** The epoch round `i` starts from. */
  function Before(epoch: nat, passes: seq<Pass>, i: nat): nat
    requires i <= |passes|
  {
    if i == 0 then epoch else passes[i - 1].after
  }

  // ---------------------------------------------------------------- what a snapshot needs does not change

  lemma {:induction false} NeedsStays(states: seq<State>, i: nat, j: nat, r: nat, k: Key, rid: Rid)
    requires Run(states) && i <= j < |states| && r <= states[i].last
    ensures r <= states[j].last
    ensures Needs(states[i], r, k, rid) <==> Needs(states[j], r, k, rid)
    decreases j - i
  {
    if i < j {
      NeedsStays(states, i, j - 1, r, k, rid);
      assert Follows(states, j - 1);
      var s := states[j - 1];
      var a :| Enabled(s, a) && states[j] == Next(s, a);
      RunInv(states, j - 1);
      NeedsStep(s, a, r, k, rid);
    }
  }

  lemma NeedsStep(s: State, a: Action, r: nat, k: Key, rid: Rid)
    requires Enabled(s, a) && r <= s.last && (s.pub.Some? ==> s.pub.value.ts > s.last)
    ensures r <= Next(s, a).last && (Needs(s, r, k, rid) <==> Needs(Next(s, a), r, k, rid))
  {
    VersionsStep(s, a, rid);
    if a.CommitRow? && rid == a.rid {
      KeyAtAppend(s.rows[rid].versions, Version(s.pub.value.ts, s.rows[rid].own.value.cur), r);
    }
  }

  /** Only the publication of a row adds a version, and rows do not go away. */
  lemma VersionsStep(s: State, a: Action, rid: Rid)
    requires Enabled(s, a)
    ensures rid in s.rows ==> rid in Next(s, a).rows
    ensures rid in Next(s, a).rows && rid !in s.rows ==> Next(s, a).rows[rid].versions == []
    ensures rid in s.rows && !(a.CommitRow? && rid == a.rid) ==> Next(s, a).rows[rid].versions == s.rows[rid].versions
  {
  }

  lemma StartsAfterSnapshot(states: seq<State>, id: int, r: nat, t: nat)
    requires Run(states) && t < |states| && id in states[t].readers && states[t].readers[id] == r
    ensures r <= states[t].last
  {
    RunInv(states, t);
  }

  /** A round between equal epochs has met everything the snapshot needs among the keys it covers. */
  lemma StablePassIsComplete(states: seq<State>, id: int, r: nat, keys: iset<Key>, start: nat, passes: seq<Pass>,
                             moments: seq<Moments>,
                             i: nat, k: Key, rid: Rid)
    requires Witnessed(states, id, r, keys, start, passes, moments) && i < |passes|
    requires passes[i].after == Before(states[start].epoch, passes, i)
    requires k in keys && Needs(states[start], r, k, rid)
    ensures rid in passes[i].tree || rid in passes[i].stale
  {
    var m, t0 := moments[i], Since(start, moments, i);
    assert PassOk(states, r, keys, start, passes, moments, i);
    SinceAfterStart(states, id, r, keys, start, passes, moments, i);
    assert TreeSeen(states, m.begin, m.registry, k, passes[i].tree);
    var t1 :| m.begin <= t1 <= m.registry && (k in states[t1].tree ==> states[t1].tree[k] in passes[i].tree);
    assert id in states[start].readers && id in states[t1].readers;
    StartsAfterSnapshot(states, id, r, start);
    NeedsStays(states, start, t1, r, k, rid);
    ReaderMissesNothing(states, t0, t1, m.registry, m.end, id, k, rid);
  }

  lemma {:induction false} SinceAfterStart(states: seq<State>, id: int, r: nat, keys: iset<Key>, start: nat,
                                           passes: seq<Pass>, moments: seq<Moments>, i: nat)
    requires Witnessed(states, id, r, keys, start, passes, moments) && i < |passes|
    ensures start <= Since(start, moments, i) < |states|
    ensures states[Since(start, moments, i)].epoch == Before(states[start].epoch, passes, i)
    decreases i
  {
    if i > 0 {
      assert PassOk(states, r, keys, start, passes, moments, i - 1);
      SinceAfterStart(states, id, r, keys, start, passes, moments, i - 1);
    }
  }

  // ---------------------------------------------------------------- a scan meets no row twice

  /** `rids` are the entries of `m` under the different keys `at`. */
  ghost predicate ListedAt(m: map<Key, Rid>, at: seq<Key>, rids: seq<Rid>) {
    && |at| == |rids| && NoRepeats(at)
    && forall i {:trigger at[i]} {:trigger rids[i]} :: 0 <= i < |rids| ==> at[i] in m && m[at[i]] == rids[i]
  }

  /** A row is in the tree under one key at a time. */
  lemma OneKeyPerRow(s: State, k: Key, l: Key)
    requires Inv(s) && k in s.tree && l in s.tree && s.tree[k] == s.tree[l]
    ensures k == l
  {
    assert RowOk(s, s.tree[k]) && InTree(s, k, s.tree[k]) && InTree(s, l, s.tree[k]);
  }

  lemma ListedOnce(states: seq<State>, t: nat, at: seq<Key>, rids: seq<Rid>)
    requires Run(states) && t < |states| && ListedAt(states[t].tree, at, rids)
    ensures NoRepeats(rids)
  {
    RunInv(states, t);
    forall i, j | 0 <= i < j < |rids| ensures rids[i] != rids[j] {
      if rids[i] == rids[j] {
        OneKeyPerRow(states[t], at[i], at[j]);
      }
    }
  }

  // ---------------------------------------------------------------- CollectCandidates

  const TWO32 := 0x1_0000_0000
  const TWO31 := 0x8000_0000

  /** The 64-bit word under which a RID is remembered: the two's complement of the page number
      shifted by 32 bits, or-ed with that of the slot number. */
  function EncodedRid(rid: Rid): nat {
    rid.pageNo % TWO32 * TWO32 + rid.slotNo % TWO32
  }

  predicate Fits32(n: int) { -TWO31 <= n < TWO31 }

  /** A RID as the program has it: two 32-bit numbers. */
  predicate Narrow(rid: Rid) {
    Fits32(rid.pageNo) && Fits32(rid.slotNo)
  }

  /** Different RIDs are never taken for the same one. */
  lemma EncodedRidInjective(a: Rid, b: Rid)
    requires Narrow(a) && Narrow(b) && EncodedRid(a) == EncodedRid(b)
    ensures a == b
  {
    SameLow(a.pageNo % TWO32, a.slotNo % TWO32, b.pageNo % TWO32, b.slotNo % TWO32);
    SameResidue(a.pageNo, b.pageNo);
    SameResidue(a.slotNo, b.slotNo);
  }

  lemma SameLow(p: nat, s: nat, q: nat, t: nat)
    requires s < TWO32 && t < TWO32 && p * TWO32 + s == q * TWO32 + t
    ensures p == q && s == t
  {
  }

  lemma SameResidue(a: int, b: int)
    requires Fits32(a) && Fits32(b) && a % TWO32 == b % TWO32
    ensures a == b
  {
    assert a % TWO32 == (if a < 0 then a + TWO32 else a);
    assert b % TWO32 == (if b < 0 then b + TWO32 else b);
  }

  ghost predicate AllNarrow(rids: seq<Rid>) {
    forall rid :: rid in rids ==> Narrow(rid)
  }

  function Encoded(rids: seq<Rid>): set<nat> {
    set rid | rid in rids :: EncodedRid(rid)
  }

  /** Appends the RIDs whose encoding was not met before: for 32-bit RIDs, those not met before. */
  method AddNew(candidates: seq<Rid>, seen: set<nat>, more: seq<Rid>) returns (out: seq<Rid>, seen': set<nat>)
    requires seen == Encoded(candidates)
    ensures seen' == Encoded(out) && candidates <= out
    ensures forall rid :: rid in out ==> rid in candidates || rid in more
    ensures AllNarrow(candidates) && AllNarrow(more) ==> forall rid :: rid in more ==> rid in out
    ensures NoRepeats(candidates) ==> NoRepeats(out)
  {
    out, seen' := candidates, seen;
    var i := 0;
    while i < |more|
      invariant 0 <= i <= |more| && seen' == Encoded(out) && candidates <= out
      invariant forall rid :: rid in out ==> rid in candidates || rid in more
      invariant AllNarrow(candidates) && AllNarrow(more) ==> forall j :: 0 <= j < i ==> more[j] in out
      invariant NoRepeats(candidates) ==> NoRepeats(out)
    {
      if EncodedRid(more[i]) !in seen' {
        assert more[i] !in out;
        out, seen' := out + [more[i]], seen' + {EncodedRid(more[i])};
      } else if AllNarrow(candidates) && AllNarrow(more) {
        KnownEncoding(out, more[i]);
      }
      i := i + 1;
    }
  }

  lemma KnownEncoding(rids: seq<Rid>, rid: Rid)
    requires AllNarrow(rids) && Narrow(rid) && EncodedRid(rid) in Encoded(rids)
    ensures rid in rids
  {
    var other :| other in rids && EncodedRid(other) == EncodedRid(rid);
    EncodedRidInjective(other, rid);
  }

  /** The RIDs met in the first `rounds` rounds. */
  ghost predicate Met(passes: seq<Pass>, rounds: nat, rid: Rid)
    requires rounds <= |passes|
  {
    exists i :: 0 <= i < rounds && (rid in passes[i].tree || rid in passes[i].stale)
  }

  /** One round: the first tree scan is taken over as it is, everything later is deduplicated. */
  method AddRound(candidates: seq<Rid>, p: Pass, deduplicate: bool) returns (out: seq<Rid>)
    requires !deduplicate ==> candidates == []
    ensures forall rid :: rid in out ==> rid in candidates || rid in p.tree || rid in p.stale
    ensures AllNarrow(candidates) && AllNarrow(p.tree) && AllNarrow(p.stale) ==>
              forall rid :: rid in candidates || rid in p.tree || rid in p.stale ==> rid in out
    ensures NoRepeats(candidates) && (deduplicate || NoRepeats(p.tree)) ==> NoRepeats(out)
  {
    out := p.tree;
    if deduplicate {
      var seen1;
      out, seen1 := AddNew(candidates, Encoded(candidates), p.tree);
    }
    var seen2;
    out, seen2 := AddNew(out, Encoded(out), p.stale);
  }

  // ---------------------------------------------------------------- the candidate list

  /** Up to four RIDs in the object itself; the fifth moves everything to a growing list. */
  class CandidateRids {
    const inline: array<Rid>
    var inlineSize: nat
    var overflow: seq<Rid>
    var overflowActive: bool

    ghost predicate Valid()
      reads this, inline
    {
      inline.Length == 4 && inlineSize <= 4
    }

    ghost function Contents(): seq<Rid>
      requires Valid()
      reads this, inline
    {
      if overflowActive then overflow else inline[..inlineSize]
    }

    constructor ()
      ensures Valid() && Contents() == [] && fresh(inline)
    {
      inline := new Rid[4](_ => IxModel.Rid(0, 0));
      inlineSize, overflow, overflowActive := 0, [], false;
    }

    method PushBack(rid: Rid)
      requires Valid()
      modifies this, inline
      ensures Valid() && Contents() == old(Contents()) + [rid]
    {
      if !overflowActive && inlineSize < inline.Length {
        inline[inlineSize] := rid;
        inlineSize := inlineSize + 1;
        return;
      }
      if !overflowActive {
        overflow := inline[..inlineSize];
        overflowActive := true;
      }
      overflow := overflow + [rid];
    }

    method At(i: nat) returns (rid: Rid)
      requires Valid() && i < |Contents()|
      ensures rid == Contents()[i]
    {
      rid := if overflowActive then overflow[i] else inline[i];
    }
  }

  // ---------------------------------------------------------------- tree scan and retry loop

  function Rids(entries: seq<IxModel.Entry>): seq<Rid> {
    seq(|entries|, i requires 0 <= i < |entries| => entries[i].rid)
  }

  /** One round of the retry loop as the other sessions shape it: their index operations before the
      tree scan, the leaf inserts arriving during it, what the registry lookup returns and the handoff
      epoch read at the end. */
  datatype Round = Round(ops: seq<IxRuns.Op>, arrivals: seq<seq<IxModel.Entry>>, stale: seq<Rid>, after: nat)

  /** Contents of the tree when a scan began and when it ended. */
  datatype Seen = Seen(begin: map<Key, Rid>, end: map<Key, Rid>)

  /** `collect_current_tree`: a point lookup or a range scan, leaf inserts coming in during the scan. What
      it returns is in the tree when it ends, and not above the range. */
  method CollectCurrentTree(ih: IxIndexHandle, ops: seq<IxRuns.Op>, lo: Key, hi: Key, point: bool,
                            arrivals: seq<seq<IxModel.Entry>>)
      returns (rids: seq<Rid>, ghost seen: Seen, ghost at: seq<Key>)
    requires ih.Valid() && (point ==> lo == hi)
    modifies ih
    ensures ih.Valid() && seen.end == ih.Contents()
    ensures forall k :: k in seen.begin && lo <= k <= hi ==> seen.begin[k] in rids
    ensures ListedAt(seen.end, at, rids) && forall i :: 0 <= i < |at| ==> at[i] <= hi
  {
    SkipScan.Interfere(ih, ops);
    ghost var m := ih.Contents();
    if point {
      var found, rid := ih.GetValue(lo, null);
      rids, at := if found then [rid] else [], if found then [lo] else [];
    } else {
      var entries;
      ghost var n1, n2;
      entries, n1, n2 := IxScan.ScanAmongInserts(ih, lo, hi, arrivals);
      rids, at := Rids(entries), seq(|entries|, i requires 0 <= i < |entries| => entries[i].key);
      forall k | k in m && lo <= k <= hi ensures m[k] in rids {
        var i :| 0 <= i < |entries| && entries[i] == IxModel.Entry(k, m[k]);
        assert rids[i] == m[k];
      }
      forall i | 0 <= i < |rids| ensures at[i] in ih.Contents() && ih.Contents()[at[i]] == rids[i] {
        assert entries[i] in entries;
      }
    }
    seen := Seen(m, ih.Contents());
  }

  /** The rounds so far as passes of the protocol: what each tree scan returned, which contents it
      began and ended with, and the keys it listed at the end. */
  ghost predicate Passed(passes: seq<Pass>, rounds: seq<Round>, seen: seq<Seen>, ats: seq<seq<Key>>, lo: Key, hi: Key) {
    && |passes| == |seen| == |ats| <= |rounds|
    && forall i {:trigger passes[i]} {:trigger seen[i]} :: 0 <= i < |passes| ==>
         && passes[i].stale == rounds[i].stale && passes[i].after == rounds[i].after
         && (forall k :: k in seen[i].begin && lo <= k <= hi ==> seen[i].begin[k] in passes[i].tree)
         && ListedAt(seen[i].end, ats[i], passes[i].tree)
  }

  /** The epoch round `i` starts from. */
  function Handoff(epoch: nat, rounds: seq<Round>, i: nat): nat
    requires i <= |rounds|
  {
    if i == 0 then epoch else rounds[i - 1].after
  }

  /** None of the first `n` rounds left the epoch as it found it. */
  ghost predicate Restless(epoch: nat, rounds: seq<Round>, n: int)
    requires n <= |rounds|
  {
    forall i :: 0 <= i < n ==> rounds[i].after != Handoff(epoch, rounds, i)
  }

  lemma PassedMore(passes: seq<Pass>, rounds: seq<Round>, seen: seq<Seen>, ats: seq<seq<Key>>, lo: Key, hi: Key,
                   p: Pass, met: Seen, at: seq<Key>)
    requires Passed(passes, rounds, seen, ats, lo, hi) && |passes| < |rounds|
    requires p.stale == rounds[|passes|].stale && p.after == rounds[|passes|].after
    requires forall k :: k in met.begin && lo <= k <= hi ==> met.begin[k] in p.tree
    requires ListedAt(met.end, at, p.tree)
    ensures Passed(passes + [p], rounds, seen + [met], ats + [at], lo, hi)
  {
  }

  /** The candidates are what the passes met; no row comes twice if none did in the first tree scan. */
  ghost predicate PassesNarrow(passes: seq<Pass>) {
    forall i {:trigger passes[i]} :: 0 <= i < |passes| ==> AllNarrow(passes[i].tree) && AllNarrow(passes[i].stale)
  }

  ghost predicate Gathered(candidates: seq<Rid>, passes: seq<Pass>) {
    && (forall rid :: rid in candidates ==> Met(passes, |passes|, rid))
    && (PassesNarrow(passes) ==> forall rid :: Met(passes, |passes|, rid) ==> rid in candidates)
    && if passes == [] then candidates == [] else NoRepeats(passes[0].tree) ==> NoRepeats(candidates)
  }

  method NextRound(candidates: seq<Rid>, ghost passes: seq<Pass>, p: Pass, first: bool) returns (out: seq<Rid>)
    requires Gathered(candidates, passes) && first == (passes == [])
    ensures Gathered(out, passes + [p])
  {
    out := AddRound(candidates, p, !first);
    forall rid ensures Met(passes + [p], |passes| + 1, rid) <==>
        Met(passes, |passes|, rid) || rid in p.tree || rid in p.stale {
      MetMore(passes, p, rid);
    }
    if PassesNarrow(passes + [p]) {
      NarrowBefore(passes, p, candidates);
    }
  }

  lemma NarrowBefore(passes: seq<Pass>, p: Pass, candidates: seq<Rid>)
    requires PassesNarrow(passes + [p]) && forall rid :: rid in candidates ==> Met(passes, |passes|, rid)
    ensures PassesNarrow(passes) && AllNarrow(p.tree) && AllNarrow(p.stale) && AllNarrow(candidates)
  {
    assert (passes + [p])[|passes|] == p;
    forall i | 0 <= i < |passes| ensures AllNarrow(passes[i].tree) && AllNarrow(passes[i].stale) {
      assert (passes + [p])[i] == passes[i];
    }
    forall rid | rid in candidates ensures Narrow(rid) {
      var i :| 0 <= i < |passes| && (rid in passes[i].tree || rid in passes[i].stale);
    }
  }

  lemma MetMore(passes: seq<Pass>, p: Pass, rid: Rid)
    ensures Met(passes + [p], |passes| + 1, rid) <==> Met(passes, |passes|, rid) || rid in p.tree || rid in p.stale
  {
    var more := passes + [p];
    assert more[|passes|] == p;
    if Met(passes, |passes|, rid) {
      var i :| 0 <= i < |passes| && (rid in passes[i].tree || rid in passes[i].stale);
      assert more[i] == passes[i];
    }
  }

  /** `CollectCandidates`: rounds of tree scan and registry lookup until one leaves the handoff epoch
      as it found it (`done`), or the rounds given are used up. The candidates are what the rounds
      met, and no row comes twice if none did in the first tree scan. */
  method CollectCandidates(ih: IxIndexHandle, lo: Key, hi: Key, point: bool, epoch: nat, rounds: seq<Round>)
      returns (candidates: seq<Rid>, done: bool, ghost seen: seq<Seen>, ghost passes: seq<Pass>,
               ghost ats: seq<seq<Key>>)
    requires ih.Valid() && (point ==> lo == hi)
    modifies ih
    ensures ih.Valid() && Passed(passes, rounds, seen, ats, lo, hi)
    ensures if done then 0 < |seen|
            && rounds[|seen| - 1].after == Handoff(epoch, rounds, |seen| - 1) else |seen| == |rounds|
    ensures Restless(epoch, rounds, if done then |seen| - 1 else |seen|)
    ensures Gathered(candidates, passes)
  {
    var handoff, n := epoch, 0;
    candidates, done, seen, passes, ats := [], false, [], [], [];
    while n < |rounds| && !done
      invariant ih.Valid() && 0 <= n <= |rounds| && n == |seen| && Passed(passes, rounds, seen, ats, lo, hi)
      invariant !done ==> handoff == Handoff(epoch, rounds, n)
      invariant done ==> 0 < n && rounds[n - 1].after == Handoff(epoch, rounds, n - 1)
      invariant Restless(epoch, rounds, if done then n - 1 else n)
      invariant Gathered(candidates, passes)
      decreases |rounds| - n, !done
    {
      candidates, seen, passes, ats := OneRound(ih, lo, hi, point, rounds, n, candidates, seen, passes, ats);
      RestlessMore(epoch, rounds, n);
      done, handoff, n := rounds[n].after == handoff, rounds[n].after, n + 1;
    }
  }

  lemma RestlessMore(epoch: nat, rounds: seq<Round>, n: nat)
    requires n < |rounds| && Restless(epoch, rounds, n)
    ensures rounds[n].after != Handoff(epoch, rounds, n) ==> Restless(epoch, rounds, n + 1)
  {
  }

  method OneRound(ih: IxIndexHandle, lo: Key, hi: Key, point: bool, rounds: seq<Round>, n: nat, candidates: seq<Rid>,
                  ghost seen: seq<Seen>, ghost passes: seq<Pass>, ghost ats: seq<seq<Key>>)
      returns (out: seq<Rid>, ghost seen': seq<Seen>, ghost passes': seq<Pass>, ghost ats': seq<seq<Key>>)
    requires ih.Valid() && (point ==> lo == hi) && n < |rounds| && n == |seen|
    requires Passed(passes, rounds, seen, ats, lo, hi) && Gathered(candidates, passes)
    modifies ih
    ensures ih.Valid() && |seen'| == n + 1 && Passed(passes', rounds, seen', ats', lo, hi) && Gathered(out, passes')
  {
    var tree;
    ghost var met, at;
    tree, met, at := CollectCurrentTree(ih, rounds[n].ops, lo, hi, point, rounds[n].arrivals);
    var p := Pass(tree, rounds[n].stale, rounds[n].after);
    out := NextRound(candidates, passes, p, n == 0);
    PassedMore(passes, rounds, seen, ats, lo, hi, p, met, at);
    passes', ats', seen' := passes + [p], ats + [at], seen + [met];
  }

  // ---------------------------------------------------------------- skip scan

  /** Adds RIDs not met before until there are more than `max`. */
  method AddBounded(rids: seq<Rid>, more: seq<Rid>, max: nat) returns (out: seq<Rid>, ok: bool)
    requires NoRepeats(rids) && |rids| <= max
    ensures NoRepeats(out) && (ok <==> |out| <= max)
    ensures ok ==> forall rid :: rid in out <==> rid in rids || rid in more
  {
    out := rids;
    for i := 0 to |more|
      invariant NoRepeats(out) && |out| <= max
      invariant forall rid :: rid in out <==> rid in rids || rid in more[..i]
    {
      if more[i] !in out {
        out := out + [more[i]];
        if |out| > max {
          return out, false;
        }
      }
    }
    ok := true;
  }

  /** One round of a skip scan; `tooManyStale` says that the registry lookup exceeded its budget. */
  datatype SkipRound = SkipRound(script: seq<seq<IxRuns.Op>>, arrivals: seq<seq<seq<IxModel.Entry>>>, stale: seq<Rid>,
                                 tooManyStale: bool, after: nat)

  ghost predicate SkipPassed(passes: seq<Pass>, rounds: seq<SkipRound>, seen: seq<seq<map<Key, Rid>>>,
                             keys: iset<Key>) {
    && |passes| == |seen| <= |rounds|
    && forall i {:trigger passes[i]} {:trigger seen[i]} :: 0 <= i < |passes| ==>
         && passes[i].stale == rounds[i].stale && passes[i].after == rounds[i].after
         && forall k :: k in keys ==> SkipScan.Settled(seen[i], passes[i].tree, k)
  }

  function SkipHandoff(epoch: nat, rounds: seq<SkipRound>, i: nat): nat
    requires i <= |rounds|
  {
    if i == 0 then epoch else rounds[i - 1].after
  }

  /** The retry loop of the skip scan: tree phase and registry lookup, until a round leaves the epoch
      alone or a budget is exceeded. */
  method CollectSkipScanCandidates(ih: IxIndexHandle, w: nat, loS: nat, hiS: nat, maxPrefixes: nat, maxCandidates: nat,
                                   epoch: nat, rounds: seq<SkipRound>,
                    ghost keys: iset<Key>)
      returns (rids: seq<Rid>, fallback: bool, done: bool, ghost seen: seq<seq<map<Key, Rid>>>, ghost passes: seq<Pass>)
    requires ih.Valid() && w > 0 && loS < w && hiS < w
    requires forall k {:trigger k in keys} :: k in keys ==> 0 <= k && loS <= SkipScan.Suffix(k, w) <= hiS
    modifies ih
    ensures ih.Valid() && |seen| <= |rounds| && (fallback ==> !done)
    ensures !fallback ==> NoRepeats(rids) && |rids| <= maxCandidates && SkipPassed(passes, rounds, seen, keys)
    ensures !fallback ==> forall rid :: rid in rids <==> Met(passes, |passes|, rid)
    ensures done ==> 0 < |seen| && rounds[|seen| - 1].after == SkipHandoff(epoch, rounds, |seen| - 1)
    ensures !done && !fallback ==> |seen| == |rounds|
  {
    rids, fallback, done, seen, passes := [], false, false, [], [];
    var handoff, n := epoch, 0;
    while n < |rounds| && !done
      invariant ih.Valid() && 0 <= n <= |rounds| && n == |seen| && SkipPassed(passes, rounds, seen, keys)
      invariant !fallback && NoRepeats(rids) && |rids| <= maxCandidates
      invariant !done ==> handoff == SkipHandoff(epoch, rounds, n)
      invariant done ==> 0 < n && rounds[n - 1].after == SkipHandoff(epoch, rounds, n - 1)
      invariant forall rid :: rid in rids <==> Met(passes, n, rid)
      decreases |rounds| - n, !done
    {
      var tree, prefixes;
      ghost var hist, leads;
      tree, fallback, prefixes, hist, leads :=
          SkipScan.TreePhase(ih, w, loS, hiS, maxPrefixes, maxCandidates, rounds[n].script, rounds[n].arrivals);
      if fallback {
        return;
      }
      var p := Pass(tree, rounds[n].stale, rounds[n].after);
      var ok := !rounds[n].tooManyStale;
      if ok {
        rids, ok := AddSkipRound(rids, passes, p, maxCandidates);
      }
      if !ok {
        fallback := true;
        return;
      }
      passes, seen := passes + [p], seen + [hist];
      done, handoff, n := p.after == handoff, p.after, n + 1;
    }
  }

  method AddSkipRound(rids: seq<Rid>, ghost passes: seq<Pass>, p: Pass, max: nat) returns (out: seq<Rid>, ok: bool)
    requires NoRepeats(rids) && |rids| <= max && forall rid :: rid in rids <==> Met(passes, |passes|, rid)
    ensures ok ==> NoRepeats(out) && |out| <= max && forall rid :: rid in out <==> Met(passes + [p], |passes| + 1, rid)
  {
    out, ok := AddBounded(rids, p.tree, max);
    if ok {
      out, ok := AddBounded(out, p.stale, max);
    }
    if ok {
      forall rid ensures rid in out <==> Met(passes + [p], |passes| + 1, rid) {
        MetMore(passes, p, rid);
      }
    }
  }
}
