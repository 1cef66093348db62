/** The skip scan: enumerating the values of the leading index column by bound probes.

    A composite key of leading value `a` and suffix `b` is the integer a * w + b, where w is the
    number of suffixes; the order of these integers is the order of the composite keys. */
module SkipScan {
  import opened Basics
  import opened IxModel
  import opened IxIndex
  import opened IxScan
  import IxRuns

  function Leading(k: Key, w: nat): int
    requires w > 0
  {
    k / w
  }

  function Suffix(k: Key, w: nat): int
    requires w > 0
  {
    k % w
  }

  lemma LeadingIs(k: Key, w: nat, a: int)
    requires w > 0
    ensures Leading(k, w) == a <==> a * w <= k < a * w + w
  {
    assert k == (k / w) * w + k % w;
    if a < k / w { MulMono(a + 1, k / w, w); }
    if k / w < a { MulMono(k / w + 1, a, w); }
  }

  lemma SuffixIs(k: Key, w: nat)
    requires w > 0
    ensures k == Leading(k, w) * w + Suffix(k, w) && 0 <= Suffix(k, w) < w
  {
  }

  /** Some time during the phase `k` was either not in the tree or was collected. */
  ghost predicate Settled(hist: seq<map<Key, Rid>>, rids: seq<Rid>, k: Key) {
    exists j {:trigger hist[j]} :: 0 <= j < |hist| && (k in hist[j] ==> hist[j][k] in rids)
  }

  /** Every key below `bound` with a suffix in bounds is settled. */
  ghost predicate SettledBelow(hist: seq<map<Key, Rid>>, rids: seq<Rid>, w: nat, loS: nat, hiS: nat, bound: int)
    requires w > 0
  {
    forall k {:trigger Settled(hist, rids, k)} :: 0 <= k < bound && loS <= Suffix(k, w) <= hiS ==>
        Settled(hist, rids, k)
  }

  /** Every candidate was met under a key below `bound`; with `exact` also under one with a suffix in
      bounds. */
  ghost predicate Sourced(hist: seq<map<Key, Rid>>, rids: seq<Rid>, w: nat, loS: nat, hiS: nat, bound: int, exact: bool)
    requires w > 0
  {
    forall r :: r in rids ==> MetUnder(hist, r, w, loS, hiS, bound, exact)
  }

  ghost predicate MetUnder(hist: seq<map<Key, Rid>>, r: Rid, w: nat, loS: nat, hiS: nat, bound: int, exact: bool)
    requires w > 0
  {
    exists j, k :: MetAs(hist, j, k, r) && k < bound && (exact ==> loS <= Suffix(k, w) <= hiS)
  }

  /** The contents met at moment `j` have `r` under `k`. */
  ghost predicate MetAs(hist: seq<map<Key, Rid>>, j: int, k: Key, r: Rid) {
    0 <= j < |hist| && k in hist[j] && hist[j][k] == r
  }

  /** How far the phase has come. */
  ghost predicate Reached(hist: seq<map<Key, Rid>>, rids: seq<Rid>, w: nat, loS: nat, hiS: nat, settled: int, met: int,
                          exact: bool)
    requires w > 0
  {
    met <= settled && SettledBelow(hist, rids, w, loS, hiS, settled) && Sourced(hist, rids, w, loS, hiS, met, exact)
  }

  lemma SettledMore(hist: seq<map<Key, Rid>>, rids: seq<Rid>, m: map<Key, Rid>, more: seq<Rid>, k: Key)
    requires Settled(hist, rids, k)
    ensures Settled(hist + [m], rids + more, k)
  {
    var j :| 0 <= j < |hist| && (k in hist[j] ==> hist[j][k] in rids);
    assert (hist + [m])[j] == hist[j];
  }

  lemma SettledNow(hist: seq<map<Key, Rid>>, rids: seq<Rid>, m: map<Key, Rid>, k: Key)
    requires k in m ==> m[k] in rids
    ensures Settled(hist + [m], rids, k)
  {
    assert (hist + [m])[|hist|] == m;
  }

  /** `AddCandidate` over the pairs of one sub-range; false when the budget is exceeded. */
  method AddCandidates(rids: seq<Rid>, found: seq<Entry>, maxCandidates: nat) returns (out: seq<Rid>, within: bool)
    requires |rids| <= maxCandidates
    ensures within ==> rids <= out && |out| <= maxCandidates
    ensures within ==> forall e :: e in found ==> e.rid in out
    ensures within ==> forall r :: r in out ==> r in rids || exists e :: e in found && e.rid == r
    ensures within && NoRepeats(rids) ==> NoRepeats(out)
    ensures !within ==> out == []
  {
    out, within := rids, true;
    var i := 0;
    while i < |found|
      invariant 0 <= i <= |found| && rids <= out && |out| <= maxCandidates
      invariant forall j :: 0 <= j < i ==> found[j].rid in out
      invariant forall r :: r in out ==> r in rids || exists e :: e in found && e.rid == r
      invariant NoRepeats(rids) ==> NoRepeats(out)
    {
      if found[i].rid !in out {
        out := out + [found[i].rid];
        if |out| > maxCandidates {
          return [], false;
        }
      }
      i := i + 1;
    }
  }

  /** Other sessions' index operations, run between two probes. */
  method Interfere(ih: IxIndexHandle, ops: seq<IxRuns.Op>)
    requires ih.Valid()
    modifies ih
    ensures ih.Valid() && (ops == [] ==> ih.Contents() == old(ih.Contents()))
  {
    var i := 0;
    while i < |ops|
      invariant ih.Valid() && (ops == [] ==> ih.Contents() == old(ih.Contents()))
    {
      var out := IxRuns.Step(ih, [], ops[i]);
      i := i + 1;
    }
  }

  /** The tree phase of a skip scan. `script` lists what other sessions do before each of its probes
      and sub-range scans, and `arrivals` the leaf inserts that come in during each sub-range scan;
      `hist` are the contents the probes met and the scans began and ended with. The leading values
      probed strictly increase. Without a fallback every key in the key space whose suffix is within
      bounds is settled, and no candidate comes from beyond the last leading value; without arrivals
      all come from keys with a suffix within bounds. With a fallback nothing is left of the
      candidates and the caller has to read the heap. */
  method TreePhase(ih: IxIndexHandle, w: nat, loS: nat, hiS: nat, maxPrefixes: nat, maxCandidates: nat,
                   script: seq<seq<IxRuns.Op>>, arrivals: seq<seq<seq<Entry>>>)
      returns (rids: seq<Rid>, fallback: bool, prefixes: nat, ghost hist: seq<map<Key, Rid>>, ghost leads: seq<int>)
    requires ih.Valid() && w > 0 && loS < w && hiS < w
    modifies ih
    ensures ih.Valid()
    ensures !fallback ==> forall k :: 0 <= k && loS <= Suffix(k, w) <= hiS ==> Settled(hist, rids, k)
    ensures !fallback ==> |rids| <= maxCandidates && prefixes <= maxPrefixes && NoRepeats(rids)
    ensures !fallback ==> Sourced(hist, rids, w, loS, hiS, Start(leads, w), arrivals == [])
    ensures fallback ==> rids == []
    ensures |leads| == prefixes && Increasing(leads)
    ensures script == [] && arrivals == [] ==> ih.Contents() == old(ih.Contents()) && AllSame(hist, old(ih.Contents()))
  {
    rids, fallback, prefixes, hist, leads := [], false, 0, [], [];
    var probe, strict := 0, false;
    ghost var m0 := ih.Contents();
    while true
      invariant ih.Valid() && prefixes <= maxPrefixes && |rids| <= maxCandidates && NoRepeats(rids)
      invariant |leads| == prefixes && Increasing(leads)
      invariant script == [] && arrivals == [] ==> ih.Contents() == m0 && AllSame(hist, m0)
      invariant Start(leads, w) == (if strict then probe + 1 else probe) && 0 <= Start(leads, w)
      invariant Reached(hist, rids, w, loS, hiS, Start(leads, w), Start(leads, w), arrivals == [])
      decreases maxPrefixes - prefixes
    {
      var valid, current, m := ProbeNext(ih, Scheduled(script, 2 * prefixes), probe, strict);
      Probed(hist, rids, m, w, loS, hiS, Start(leads, w), arrivals == [], valid, current);
      hist := hist + [m];
      if !valid {
        return;
      }
      if prefixes >= maxPrefixes {
        rids, fallback := [], true;
        return;
      }
      var lead := Leading(current, w);
      var within: bool;
      ghost var m1, m2;
      rids, within, m1, m2 :=
          ScanLeading(ih, Scheduled(script, 2 * prefixes + 1), lead, w, loS, hiS, rids, maxCandidates,
          Scheduled(arrivals, prefixes),
                                          hist, Start(leads, w), current, arrivals == []);
      NextLead(leads, lead, current, w);
      leads, prefixes := leads + [lead], prefixes + 1;
      if !within {
        fallback := true;
        return;
      }
      hist := hist + [m1] + [m2];
      probe, strict := Beyond(lead, w) - 1, true;
    }
  }

  /** What is scheduled for moment `t`. */
  function Scheduled<T>(script: seq<seq<T>>, t: nat): seq<T> {
    if t < |script| then script[t] else []
  }

  /** The first key not probed yet. */
  function Start(leads: seq<int>, w: nat): int {
    if leads == [] then 0 else Beyond(leads[|leads| - 1], w)
  }

  lemma NextLead(leads: seq<int>, lead: int, current: Key, w: nat)
    requires w > 0 && Increasing(leads) && 0 <= Start(leads, w) <= current && lead == Leading(current, w)
    ensures Increasing(leads + [lead]) && Start(leads + [lead], w) == Beyond(lead, w) && current < Beyond(lead, w)
  {
    NextStart(lead, current, w);
    if leads != [] { Rises(leads[|leads| - 1], lead, current, w); }
    MoreLeads(leads, lead);
  }

  /** The bound probe that finds the next leading value. */
  method ProbeNext(ih: IxIndexHandle, ops: seq<IxRuns.Op>, probe: Key, strict: bool)
      returns (valid: bool, current: Key, ghost m: map<Key, Rid>)
    requires ih.Valid()
    modifies ih
    ensures ih.Valid() && m == ih.Contents() && (ops == [] ==> m == old(ih.Contents()))
    ensures valid ==> (if strict then probe < current else probe <= current)
    ensures forall k :: k in m && (if strict then probe < k else probe <= k) ==> valid && current <= k
  {
    Interfere(ih, ops);
    valid, current := GetBoundKey(ih, probe, strict);
    m := ih.Contents();
  }

  /** The sub-range scan of one leading value. */
  method ScanLeading(ih: IxIndexHandle, ops: seq<IxRuns.Op>, lead: int, w: nat, loS: nat, hiS: nat, before: seq<Rid>,
                     maxCandidates: nat,
                     arrivals: seq<seq<Entry>>, ghost hist: seq<map<Key, Rid>>, ghost from: int, ghost current: Key,
                         ghost exact: bool)
      returns (rids: seq<Rid>, within: bool, ghost m1: map<Key, Rid>, ghost m2: map<Key, Rid>)
    requires ih.Valid() && w > 0 && loS < w && hiS < w && 0 <= current && lead == Leading(current, w)
             && (exact ==> arrivals == [])
    requires |before| <= maxCandidates && NoRepeats(before) && Reached(hist, before, w, loS, hiS, current, from, exact)
    modifies ih
    ensures ih.Valid() && m2 == ih.Contents() && (ops == [] ==> m1 == old(ih.Contents()))
            && (arrivals == [] ==> m1 == m2)
    ensures if within then |rids| <= maxCandidates && NoRepeats(rids) else rids == []
    ensures within ==> Reached(hist + [m1] + [m2], rids, w, loS, hiS, Beyond(lead, w), Beyond(lead, w), exact)
  {
    Interfere(ih, ops);
    m1 := ih.Contents();
    var found;
    ghost var n1, n2;
    found, n1, n2 := ScanAmongInserts(ih, lead * w + loS, lead * w + hiS, arrivals);
    m2 := ih.Contents();
    rids, within := AddCandidates(before, found, maxCandidates);
    if within {
      SubRange(hist, before, rids, found, m1, m2, w, loS, hiS, lead, from, current, exact);
    }
  }

  /** A bound probe settles the keys it passes over. */
  lemma Probed(hist: seq<map<Key, Rid>>, rids: seq<Rid>, m: map<Key, Rid>, w: nat, loS: nat, hiS: nat, from: int,
               exact: bool,
               valid: bool, current: Key)
    requires w > 0 && Reached(hist, rids, w, loS, hiS, from, from, exact)
    requires (valid ==> from <= current) && forall k :: k in m && from <= k ==> valid && current <= k
    ensures Sourced(hist + [m], rids, w, loS, hiS, from, exact)
    ensures valid ==> Reached(hist + [m], rids, w, loS, hiS, current, from, exact)
    ensures !valid ==> forall k :: 0 <= k && loS <= Suffix(k, w) <= hiS ==> Settled(hist + [m], rids, k)
  {
    Older(hist, m, rids, w, loS, hiS, from, from, exact);
    forall k | 0 <= k && loS <= Suffix(k, w) <= hiS && (k < from || !valid || k < current)
      ensures Settled(hist + [m], rids, k)
    {
      if k < from {
        SettledMore(hist, rids, m, [], k);
        assert rids + [] == rids;
      } else {
        SettledNow(hist, rids, m, k);
      }
    }
  }

  ghost predicate Increasing(s: seq<int>) {
    forall i, j :: 0 <= i < j < |s| ==> s[i] < s[j]
  }

  lemma MoreLeads(leads: seq<int>, lead: int)
    requires Increasing(leads) && (leads != [] ==> leads[|leads| - 1] < lead)
    ensures Increasing(leads + [lead])
  {
    forall i | 0 <= i < |leads| ensures leads[i] < lead {
      assert leads[i] <= leads[|leads| - 1];
    }
  }

  ghost predicate AllSame(hist: seq<map<Key, Rid>>, m: map<Key, Rid>) {
    forall j :: 0 <= j < |hist| ==> hist[j] == m
  }

  /** The first key after those with leading value `lead`. */
  function Beyond(lead: int, w: nat): int {
    lead * w + w
  }

  lemma NextStart(lead: int, current: Key, w: nat)
    requires w > 0 && current >= 0 && lead == Leading(current, w)
    ensures current < Beyond(lead, w)
  {
    LeadingIs(current, w, lead);
  }

  lemma Older(hist: seq<map<Key, Rid>>, m: map<Key, Rid>, rids: seq<Rid>, w: nat, loS: nat, hiS: nat, bound: int,
              bound': int, exact: bool)
    requires w > 0 && Sourced(hist, rids, w, loS, hiS, bound, exact) && bound <= bound'
    ensures Sourced(hist + [m], rids, w, loS, hiS, bound', exact)
  {
    forall r | r in rids ensures MetUnder(hist + [m], r, w, loS, hiS, bound', exact) {
      assert MetUnder(hist, r, w, loS, hiS, bound, exact);
      var j, k :| MetAs(hist, j, k, r) && k < bound && (exact ==> loS <= Suffix(k, w) <= hiS);
      assert MetAs(hist + [m], j, k, r);
    }
  }

  /** A key beyond a leading value has a larger one. */
  lemma Rises(last: int, lead: int, current: Key, w: nat)
    requires w > 0 && lead == Leading(current, w) && Beyond(last, w) <= current
    ensures last < lead
  {
    LeadingIs(current, w, lead);
    if lead <= last { MulMono(lead, last, w); }
  }

  /** Scanning the sub-range of one leading value, from contents `m` to contents `m2`, settles every
      key up to the next leading value. What it meets is never above the sub-range, and not below it
      either when `exact`. */
  lemma SubRange(hist: seq<map<Key, Rid>>, before: seq<Rid>, rids: seq<Rid>, found: seq<Entry>, m: map<Key, Rid>,
                 m2: map<Key, Rid>,
                 w: nat, loS: nat, hiS: nat, lead: int, from: int, current: Key, exact: bool)
    requires w > 0 && loS < w && hiS < w && 0 <= current && lead == Leading(current, w)
    requires before <= rids
    requires forall e :: e in found ==> e.rid in rids
    requires forall r :: r in rids ==> r in before || exists e :: e in found && e.rid == r
    requires forall k :: k in m && lead * w + loS <= k <= lead * w + hiS ==> Entry(k, m[k]) in found
    requires forall e :: e in found ==> e.key in m2 && m2[e.key] == e.rid && e.key <= lead * w + hiS
    requires exact ==> AllFrom(found, lead * w + loS)
    requires Reached(hist, before, w, loS, hiS, current, from, exact)
    ensures Reached(hist + [m] + [m2], rids, w, loS, hiS, Beyond(lead, w), Beyond(lead, w), exact)
  {
    LeadingIs(current, w, lead);
    SubRangeSettles(hist, before, rids, found, m, m2, w, loS, hiS, lead, current);
    SubRangeSources(hist, before, rids, found, m, m2, w, loS, hiS, lead, from, exact);
  }

  lemma SubRangeSettles(hist: seq<map<Key, Rid>>, before: seq<Rid>, rids: seq<Rid>, found: seq<Entry>, m: map<Key, Rid>,
                        m2: map<Key, Rid>,
                        w: nat, loS: nat, hiS: nat, lead: int, current: Key)
    requires w > 0 && loS < w && hiS < w && 0 <= current && lead == Leading(current, w)
    requires before <= rids && SettledBelow(hist, before, w, loS, hiS, current)
    requires forall e :: e in found ==> e.rid in rids
    requires forall k :: k in m && lead * w + loS <= k <= lead * w + hiS ==> Entry(k, m[k]) in found
    ensures SettledBelow(hist + [m] + [m2], rids, w, loS, hiS, Beyond(lead, w))
  {
    LeadingIs(current, w, lead);
    forall k | 0 <= k < Beyond(lead, w) && loS <= Suffix(k, w) <= hiS ensures Settled(hist + [m] + [m2], rids, k) {
      SuffixIs(k, w);
      if k < current {
        SettledMore(hist, before, m, rids[|before|..], k);
        assert rids == before + rids[|before|..];
      } else {
        LeadingIs(k, w, lead);
        SettledNow(hist, rids, m, k);
      }
      SettledMore(hist + [m], rids, m2, [], k);
      assert rids + [] == rids;
    }
  }

  lemma SubRangeSources(hist: seq<map<Key, Rid>>, before: seq<Rid>, rids: seq<Rid>, found: seq<Entry>, m: map<Key, Rid>,
                        m2: map<Key, Rid>,
                        w: nat, loS: nat, hiS: nat, lead: int, from: int, exact: bool)
    requires w > 0 && loS < w && hiS < w && from <= Beyond(lead, w) && Sourced(hist, before, w, loS, hiS, from, exact)
    requires forall r :: r in rids ==> r in before || exists e :: e in found && e.rid == r
    requires forall e :: e in found ==> e.key in m2 && m2[e.key] == e.rid && e.key <= lead * w + hiS
    requires exact ==> AllFrom(found, lead * w + loS)
    ensures Sourced(hist + [m] + [m2], rids, w, loS, hiS, Beyond(lead, w), exact)
  {
    var end := Beyond(lead, w);
    Older(hist, m, before, w, loS, hiS, from, end, exact);
    Older(hist + [m], m2, before, w, loS, hiS, end, end, exact);
    forall r | r in rids ensures MetUnder(hist + [m] + [m2], r, w, loS, hiS, end, exact) {
      if r !in before {
        var e :| e in found && e.rid == r;
        if exact {
          LeadingIs(e.key, w, lead);
          SuffixIs(e.key, w);
        }
        assert MetAs(hist + [m] + [m2], |hist| + 1, e.key, r);
      }
    }
  }
}
