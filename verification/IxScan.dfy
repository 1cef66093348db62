/** Range scans along the leaf chain and the bound probes of the skip scan. */
module IxScan {
  import opened IxModel
  import opened IxSteps
  import opened IxNode
  import opened IxIndex
  import IxTheorems
  import IxRaise

  /** A key of the map at or beyond the end of leaf `p` is behind the chain's next leaf, which is
      not empty and starts no later than that key. */
  lemma BeyondLeaf(s: Ix, g: Shape, p: int, k: Key)
    requires Valid(s, g) && p in g.info && p in s.pages && g.info[p].level == 0
    requires k in g.m && Below(g.info[p].lo, k) && !Above(g.info[p].hi, k)
    ensures s.pages[p].next != LEAF_HEADER_PAGE
    ensures var q := s.pages[p].next;
            q in s.pages && q in g.info && g.info[q].level == 0 && |s.pages[q].ents| > 0 && s.pages[q].ents[0].key <= k
  {
    assert p in g.chain;
    var i :| 0 <= i < |g.chain| && g.chain[i] == p;
    assert LinkOk(s, g, i) && LinkOk(s, g, i + 1);
    NextLeaf(s, g, p, i);
    var q := g.chain[i + 1];
    var w := IxTheorems.LeafFor(s, g, s.root, k);
    assert w in g.chain;
    var t :| 0 <= t < |g.chain| && g.chain[t] == w;
    assert LinkOk(s, g, t) && PageOk(s, g, q, {}) && PageOk(s, g, w, {}) && LeafOk(s, g, w);
    if t <= i { BeforeHere(s, g, t, i, k); }
    else if t == i + 1 {
      assert HasKey(s.pages[w].ents, k);
      IxRaise.NoSmaller(s.pages[w].ents, k);
    } else {
      assert LinkOk(s, g, i + 2);
      if i + 2 < t { ChainLoUp(s, g, i + 2, t); }
      assert Above(g.info[q].hi, s.pages[q].ents[0].key);
    }
  }

  lemma BeforeHere(s: Ix, g: Shape, t: int, i: int, k: Key)
    requires Valid(s, g) && 0 <= t <= i < |g.chain| && Covers(g, g.chain[t], k)
    ensures g.chain[i] in g.info && !(Below(g.info[g.chain[i]].lo, k) && !Above(g.info[g.chain[i]].hi, k))
  {
    assert LinkOk(s, g, t) && LinkOk(s, g, i);
    if t < i {
      assert LinkOk(s, g, t + 1);
      if t + 1 < i { ChainLoUp(s, g, t + 1, i); }
    }
  }

  /** With a second leaf in the chain no leaf is the root, so none is empty. */
  lemma NextLeaf(s: Ix, g: Shape, p: int, i: int)
    requires Valid(s, g) && 0 <= i < |g.chain| && g.chain[i] == p && i + 1 < |g.chain|
    ensures var q := g.chain[i + 1]; q in s.pages && q in g.info && |s.pages[q].ents| > 0
    ensures p in s.pages && s.pages[p].next == g.chain[i + 1] != LEAF_HEADER_PAGE
  {
    assert LinkOk(s, g, i) && LinkOk(s, g, i + 1);
    var q := g.chain[i + 1];
    assert PageOk(s, g, q, {}) && UpOk(s, g, q);
    ChainLoUp(s, g, i, i + 1);
  }

  /** What follows leaf `p` in the chain. */
  lemma NextFacts(s: Ix, g: Shape, p: int)
    requires Valid(s, g) && p in g.info && p in s.pages && g.info[p].level == 0
    ensures s.pages[p].next == LEAF_HEADER_PAGE ==> g.info[p].hi == PosInf
    ensures s.pages[p].next != LEAF_HEADER_PAGE ==>
              var q := s.pages[p].next;
              q in s.pages && q in g.info && g.info[q].level == 0 && |s.pages[q].ents| > 0
                  && g.info[q].lo == g.info[p].hi
  {
    assert p in g.chain;
    var i :| 0 <= i < |g.chain| && g.chain[i] == p;
    assert LinkOk(s, g, i);
    if i + 1 < |g.chain| {
      NextLeaf(s, g, p, i);
      assert LinkOk(s, g, i + 1);
    }
  }

  /** `pos` is where `k` would stand in the leaf `p` that covers `k`: the first key of the map from
      there on is the one at `pos`, or the first of the next leaf. */
  lemma FirstFrom(s: Ix, g: Shape, p: int, pos: int, k: Key, a: Key)
    requires Valid(s, g) && p in g.info && p in s.pages && g.info[p].level == 0 && Below(g.info[p].lo, k)
    requires 0 <= pos <= |s.pages[p].ents|
    requires forall i {:trigger s.pages[p].ents[i]} :: 0 <= i < pos ==> s.pages[p].ents[i].key < k
    requires a in g.m && k <= a
    ensures pos < |s.pages[p].ents| ==> s.pages[p].ents[pos].key <= a
    ensures pos == |s.pages[p].ents| ==> s.pages[p].next != LEAF_HEADER_PAGE
    ensures pos == |s.pages[p].ents| ==>
              var q := s.pages[p].next; q in s.pages && |s.pages[q].ents| > 0 && s.pages[q].ents[0].key <= a
  {
    assert PageOk(s, g, p, {}) && LeafOk(s, g, p);
    var ents := s.pages[p].ents;
    if Above(g.info[p].hi, a) {
      assert Covers(g, p, a);
      assert HasKey(ents, a);
      var i :| 0 <= i < |ents| && ents[i].key == a;
      assert i >= pos;
      if pos < i { assert ents[pos].key < ents[i].key; }
    } else {
      BeyondLeaf(s, g, p, a);
      if pos < |ents| { assert Above(g.info[p].hi, ents[pos].key); }
    }
  }

  /** Pairs stored in leaves are pairs of the map. */
  lemma StoredIsMapped(s: Ix, g: Shape, p: int, i: int)
    requires Valid(s, g) && p in g.info && p in s.pages && g.info[p].level == 0 && 0 <= i < |s.pages[p].ents|
    ensures s.pages[p].ents[i].key in g.m && g.m[s.pages[p].ents[i].key] == s.pages[p].ents[i].rid
    ensures Covers(g, p, s.pages[p].ents[i].key)
  {
    assert LeafOk(s, g, p) && PageOk(s, g, p, {});
  }

  /** `get_bound_key`: the least key at or above `key`, or strictly above it. */
  method GetBoundKey(ih: IxIndexHandle, key: Key, strict: bool) returns (valid: bool, result: Key)
    requires ih.Valid()
    ensures valid ==> result in ih.Contents() && (if strict then key < result else key <= result)
    ensures valid ==> forall a :: a in ih.Contents() && (if strict then key < a else key <= a) ==> result <= a
    ensures !valid ==> forall a :: a in ih.Contents() ==> !(if strict then key < a else key <= a)
  {
    ghost var s, g := ih.View(), ih.g;
    ghost var from := if strict then key + 1 else key;
    var p := ih.FindLeafPage(key);
    assert PageOk(s, g, p, {});
    var ents := ih.pages[p].ents;
    var pos: nat;
    if strict { pos := UpperBound(ents, key); } else { pos := LowerBound(ents, key); }
    NextFacts(s, g, p);
    forall a | a in ih.Contents() && from <= a
      ensures pos < |ents| ==> ents[pos].key <= a
      ensures pos == |ents| ==> ih.pages[p].next != LEAF_HEADER_PAGE && ih.pages[ih.pages[p].next].ents[0].key <= a
    {
      FirstFrom(s, g, p, pos, from, a);
    }
    valid, result := false, 0;
    if pos < |ents| {
      StoredIsMapped(s, g, p, pos);
      valid, result := true, ents[pos].key;
    } else if ih.pages[p].next != LEAF_HEADER_PAGE && ih.pages[p].next != NO_PAGE {
      var q := ih.pages[p].next;
      if ih.pages[q].isLeaf && |ih.pages[q].ents| > 0 {
        StoredIsMapped(s, g, q, 0);
        assert Above(g.info[p].hi, key);
        valid, result := true, ih.pages[q].ents[0].key;
      }
    }
    BoundEnds(s, g, p);
  }

  lemma BoundEnds(s: Ix, g: Shape, p: int)
    requires Valid(s, g) && p in g.info && p in s.pages && g.info[p].level == 0
    ensures s.pages[p].next != NO_PAGE
    ensures s.pages[p].next != LEAF_HEADER_PAGE ==> s.pages[p].next in s.pages && s.pages[s.pages[p].next].isLeaf
  {
    NextFacts(s, g, p);
    if s.pages[p].next != LEAF_HEADER_PAGE { assert PageOk(s, g, s.pages[p].next, {}); }
  }

  // ---------------------------------------------------------------- positions in a leaf

  /** From slot `pos` of leaf `p` on, a walk along the chain has not passed `a`. */
  ghost predicate NotPassed(s: Ix, g: Shape, p: int, pos: int, a: Key)
    requires p in s.pages && p in g.info
  {
    Below(g.info[p].lo, a) && forall i {:trigger s.pages[p].ents[i]} :: 0 <= i < pos && i < |s.pages[p].ents| ==>
        s.pages[p].ents[i].key < a
  }

  /** Number of entries with a key below `x`. */
  ghost function CountBelow(ents: seq<Entry>, x: Key): nat
    decreases |ents|
  {
    if ents == [] then 0 else (if ents[0].key < x then 1 else 0) + CountBelow(ents[1..], x)
  }

  lemma {:induction false} CountOfSum(a: seq<Entry>, b: seq<Entry>, x: Key)
    ensures CountBelow(a + b, x) == CountBelow(a, x) + CountBelow(b, x)
    decreases |a|
  {
    if a == [] {
      assert a + b == b;
    } else {
      assert (a + b)[1..] == a[1..] + b;
      CountOfSum(a[1..], b, x);
    }
  }

  /** One entry more below `x` counts, any other does not. */
  lemma CountInserted(ents: seq<Entry>, pos: nat, e: Entry, x: Key)
    requires pos <= |ents|
    ensures CountBelow(InsertAt(ents, pos, e), x) == CountBelow(ents, x) + if e.key < x then 1 else 0
  {
    CountOfSum(ents[..pos] + [e], ents[pos..], x);
    CountOfSum(ents[..pos], [e], x);
    CountOfSum(ents[..pos], ents[pos..], x);
    assert ents == ents[..pos] + ents[pos..];
    assert InsertAt(ents, pos, e) == ents[..pos] + [e] + ents[pos..];
  }

  /** Among sorted entries those below `x` come first. */
  lemma {:induction false} CountSplits(ents: seq<Entry>, x: Key)
    requires Sorted(ents, 0)
    ensures CountBelow(ents, x) <= |ents|
    ensures forall i {:trigger ents[i]} :: 0 <= i < |ents| ==> (ents[i].key < x <==> i < CountBelow(ents, x))
    decreases |ents|
  {
    if ents != [] {
      var rest := ents[1..];
      assert forall i :: 0 <= i < |rest| ==> rest[i] == ents[i + 1];
      CountSplits(rest, x);
      forall i | 0 <= i < |ents| ensures ents[i].key < x <==> i < CountBelow(ents, x) {
        if i > 0 { assert ents[i] == rest[i - 1]; }
      }
    }
  }

  lemma CountIs(ents: seq<Entry>, x: Key, n: nat)
    requires Sorted(ents, 0) && n <= |ents|
    requires n > 0 ==> ents[n - 1].key < x
    requires n < |ents| ==> x <= ents[n].key
    ensures CountBelow(ents, x) == n
  {
    CountSplits(ents, x);
  }

  /** Entries only move up when one more comes in. */
  lemma InsertedMovesUp(ents: seq<Entry>, pos: nat, e: Entry, i: int)
    requires pos <= |ents| && Sorted(InsertAt(ents, pos, e), 0) && 0 <= i < |ents|
    ensures InsertAt(ents, pos, e)[i].key <= ents[i].key
  {
    var es := InsertAt(ents, pos, e);
    assert es[i] == if i < pos then ents[i] else if i == pos then e else ents[i - 1];
    assert es[i + 1] == if i + 1 < pos then ents[i + 1] else if i + 1 == pos then e else ents[i];
  }

  // ---------------------------------------------------------------- the scan

  /** A key-bounded scan. A latched scan stands on a pair of a leaf, and nobody writes that leaf. An
      unlatched one has chosen a slot of a leaf and not latched it yet: at its start, and when it
      goes on to another leaf. Then inserts can come in on every leaf. */
  class IxScan {
    const ih: IxIndexHandle
    const upper: Key
    var page: int
    var slot: int
    var latched: bool
    var ended: bool

    ghost predicate Valid()
      reads this, ih
    {
      && ih.Valid()
      && (!ended ==>
            && page in ih.pages && page in ih.g.info && ih.g.info[page].level == 0
            && 0 <= slot <= |ih.pages[page].ents|
            && (slot == |ih.pages[page].ents| ==> ih.pages[page].next == LEAF_HEADER_PAGE)
            && (latched ==> slot < |ih.pages[page].ents| && ih.pages[page].ents[slot].key <= upper))
    }

    ghost predicate Standing()
      reads this, ih
    {
      Valid() && !ended && latched
    }

    ghost function Current(): Entry
      requires Standing()
      reads this, ih
    {
      ih.pages[page].ents[slot]
    }

    /** The least key the scan can still yield. */
    ghost function Bound(): Key
      requires Valid() && (!ended ==> latched)
      reads this, ih
    {
      if ended then upper + 1 else Current().key
    }

    /** The scan has not passed `a`. */
    ghost predicate Ahead(a: Key)
      requires Valid() && !ended
      reads this, ih
    {
      NotPassed(ih.View(), ih.g, page, slot, a)
    }

    /** All that lies ahead is above `k`. */
    ghost predicate Past(k: Key)
      requires Valid() && !ended
      reads this, ih
    {
      if latched then k < Current().key else !Below(ih.g.info[page].lo, k)
    }

    /** Keys below `x` in the leaf of the scan. */
    ghost function BelowHere(x: Key): nat
      requires Valid() && !ended
      reads this, ih
    {
      CountBelow(ih.pages[page].ents, x)
    }

    /** `lower_bound_locked`: the slot of the first key at or above `lower`, not latched. No such key
        is passed, and the slot number counts the keys below `lower` in its leaf. */
    constructor (ih: IxIndexHandle, lower: Key, upper: Key)
      requires ih.Valid()
      ensures Valid() && this.ih == ih && this.upper == upper && !ended && !latched
      ensures forall a :: a in ih.Contents() && lower <= a ==> Ahead(a)
      ensures slot == BelowHere(lower)
    {
      this.ih, this.upper := ih, upper;
      page, slot, latched, ended := NO_PAGE, 0, false, false;
      new;
      ghost var s, g := ih.View(), ih.g;
      var p := ih.FindLeafPage(lower);
      assert PageOk(s, g, p, {});
      var pos := LowerBound(ih.pages[p].ents, lower);
      NextFacts(s, g, p);
      if pos == |ih.pages[p].ents| && ih.pages[p].next != LEAF_HEADER_PAGE {
        page, slot := ih.pages[p].next, 0;
      } else {
        page, slot := p, pos;
      }
      StartIsAhead(s, g, p, pos, lower, page, slot);
    }

    /** Latches the leaf of the slot. The scan has ended when the slot is behind the last key or its key
        is above the bound; otherwise it stands on a pair that comes no later than any key ahead. */
    method Latch()
      requires Valid() && !ended && !latched
      modifies this
      ensures Valid() && page == old(page) && slot == old(slot) && page in ih.pages && (!ended ==> latched)
      ensures ended <==> slot >= |ih.pages[page].ents| || ih.pages[page].ents[slot].key > upper
      ensures forall a :: a in ih.Contents() && old(Ahead(a)) ==> if ended then upper < a else Current().key <= a
      ensures !ended ==> forall k :: old(Past(k)) ==> Past(k)
    {
      ghost var s, g := ih.View(), ih.g;
      forall a | a in g.m && Ahead(a) ensures slot < |ih.pages[page].ents| && ih.pages[page].ents[slot].key <= a {
        FirstFrom(s, g, page, slot, a, a);
      }
      if slot < |ih.pages[page].ents| {
        StoredIsMapped(s, g, page, slot);
        LowIsBelow(g.info[page].lo, ih.pages[page].ents[slot].key);
      }
      latched := true;
      ended := slot >= |ih.pages[page].ents| || ih.pages[page].ents[slot].key > upper;
    }

    /** `rid()` and key of the pair the scan stands on, then `next()`. */
    method Take() returns (e: Entry)
      requires Standing()
      modifies this
      ensures Valid() && e == old(Current()) && e.key <= upper && e.key in ih.Contents()
              && ih.Contents()[e.key] == e.rid
      ensures !ended ==> Past(e.key)
      ensures forall a :: a in ih.Contents() && e.key < a ==> if ended then upper < a else Ahead(a)
    {
      e := ih.pages[page].ents[slot];
      StoredIsMapped(ih.View(), ih.g, page, slot);
      Next();
    }

    /** Steps to the next slot of the leaf, within the bound, or lets the leaf go and chooses the first
        slot of the next one. */
    method Next()
      requires Standing()
      modifies this
      ensures Valid()
      ensures !ended ==> Past(old(Current()).key)
      ensures forall a :: a in ih.Contents() && old(Current()).key < a ==> if ended then upper < a else Ahead(a)
    {
      ghost var s, g, k, p := ih.View(), ih.g, Current().key, page;
      StoredIsMapped(s, g, p, slot);
      NextFacts(s, g, p);
      slot := slot + 1;
      if slot == |ih.pages[page].ents| {
        EndOfLeaf(s, g, p, k);
        if ih.pages[page].next == LEAF_HEADER_PAGE {
          ended := true;
          return;
        }
        slot, page, latched := 0, ih.pages[page].next, false;
        return;
      }
      WithinLeaf(s, g, p, slot, k);
      ended := ih.pages[page].ents[slot].key > upper;
    }
  }

  lemma LowIsBelow(lo: Bound, x: Key)
    requires Below(lo, x)
    ensures forall k {:trigger Below(lo, k)} :: !Below(lo, k) ==> k < x
  {
  }

  /** Where a scan from `lower` starts: at `pos` in the leaf that covers it, or in the next leaf. */
  lemma StartIsAhead(s: Ix, g: Shape, p: int, pos: nat, lower: Key, page: int, slot: nat)
    requires Valid(s, g) && p in g.info && p in s.pages && g.info[p].level == 0 && Covers(g, p, lower)
    requires pos <= |s.pages[p].ents|
    requires forall i {:trigger s.pages[p].ents[i]} :: 0 <= i < pos ==> s.pages[p].ents[i].key < lower
    requires forall i {:trigger s.pages[p].ents[i]} :: pos <= i < |s.pages[p].ents| ==> lower <= s.pages[p].ents[i].key
    requires if pos == |s.pages[p].ents| && s.pages[p].next != LEAF_HEADER_PAGE then page == s.pages[p].next
             && slot == 0
             else page == p && slot == pos
    requires page in s.pages && page in g.info
    ensures forall a {:trigger a in g.m} :: a in g.m && lower <= a ==> NotPassed(s, g, page, slot, a)
    ensures slot == CountBelow(s.pages[page].ents, lower)
  {
    assert PageOk(s, g, p, {}) && LeafOk(s, g, p);
    NextFacts(s, g, p);
    if pos == |s.pages[p].ents| && s.pages[p].next != LEAF_HEADER_PAGE {
      FirstOfNext(s, g, p, lower, page);
    } else {
      CountIs(s.pages[p].ents, lower, pos);
      forall a | a in g.m && lower <= a ensures NotPassed(s, g, p, pos, a) {
        assert Below(g.info[p].lo, lower) && Below(g.info[p].lo, a);
      }
    }
  }

  lemma FirstOfNext(s: Ix, g: Shape, p: int, lower: Key, q: int)
    requires Valid(s, g) && p in g.info && p in s.pages && g.info[p].level == 0 && Covers(g, p, lower)
    requires s.pages[p].next == q != LEAF_HEADER_PAGE && q in s.pages && q in g.info
    requires forall i {:trigger s.pages[p].ents[i]} :: 0 <= i < |s.pages[p].ents| ==> s.pages[p].ents[i].key < lower
    ensures forall a {:trigger a in g.m} :: a in g.m && lower <= a ==> NotPassed(s, g, q, 0, a)
    ensures CountBelow(s.pages[q].ents, lower) == 0
  {
    NextFacts(s, g, p);
    assert LeafOk(s, g, p) && PageOk(s, g, q, {});
    CountIs(s.pages[q].ents, lower, 0);
    assert Below(g.info[q].lo, s.pages[q].ents[0].key);
    forall a | a in g.m && lower <= a ensures Below(g.info[q].lo, a) {
      assert Covers(g, p, a) ==> HasKey(s.pages[p].ents, a);
    }
  }

  lemma EndOfLeaf(s: Ix, g: Shape, p: int, k: Key)
    requires Valid(s, g) && p in g.info && p in s.pages && g.info[p].level == 0 && Covers(g, p, k)
    requires |s.pages[p].ents| > 0 && s.pages[p].ents[|s.pages[p].ents| - 1].key == k
    ensures s.pages[p].next == LEAF_HEADER_PAGE ==> forall a :: a in g.m ==> a <= k
    ensures s.pages[p].next != LEAF_HEADER_PAGE ==>
              var q := s.pages[p].next;
              && q in s.pages && q in g.info && |s.pages[q].ents| > 0 && !Below(g.info[q].lo, k)
              && forall a {:trigger a in g.m} :: a in g.m && k < a ==> NotPassed(s, g, q, 0, a)
  {
    NextFacts(s, g, p);
    assert LeafOk(s, g, p) && PageOk(s, g, p, {});
    forall a | a in g.m && k < a ensures !Above(g.info[p].hi, a) {
      assert Covers(g, p, a) ==> HasKey(s.pages[p].ents, a);
    }
  }

  lemma WithinLeaf(s: Ix, g: Shape, p: int, slot: nat, k: Key)
    requires Valid(s, g) && p in g.info && p in s.pages && g.info[p].level == 0
    requires 0 < slot < |s.pages[p].ents| && s.pages[p].ents[slot - 1].key == k
    ensures k < s.pages[p].ents[slot].key
    ensures forall a :: k < a ==> NotPassed(s, g, p, slot, a)
    ensures forall a {:trigger a in g.m} :: a in g.m && k < a ==> s.pages[p].ents[slot].key <= a
  {
    assert PageOk(s, g, p, {});
    assert Below(g.info[p].lo, k);
    forall i | 0 <= i < slot ensures s.pages[p].ents[i].key <= k {
      if i < slot - 1 { assert s.pages[p].ents[i].key < s.pages[p].ents[slot - 1].key; }
    }
    forall a | a in g.m && k < a ensures s.pages[p].ents[slot].key <= a { FirstFrom(s, g, p, slot, k + 1, a); }
  }

  ghost predicate Ascending(out: seq<Entry>) {
    forall i, j {:trigger out[i], out[j]} :: 0 <= i < j < |out| ==> out[i].key < out[j].key
  }

  /** A whole scan yields exactly the pairs with a key in [lower, upper], ascending and each once;
      it ends also when lower > upper. */
  method RangeScan(ih: IxIndexHandle, lower: Key, upper: Key) returns (out: seq<Entry>)
    requires ih.Valid()
    ensures Ascending(out)
    ensures forall e :: e in out <==> e.key in ih.Contents() && ih.Contents()[e.key] == e.rid && lower <= e.key <= upper
  {
    var scan := new IxScan(ih, lower, upper);
    ghost var m := ih.Contents();
    scan.Latch();
    FirstKey(scan, lower);
    out := [];
    while !scan.ended
      invariant scan.Valid() && scan.ih == ih && scan.upper == upper && (!scan.ended ==> scan.latched)
      invariant Collected(out, m, m, lower, upper, scan.Bound())
      invariant AllFrom(out, lower) && (!scan.ended ==> lower <= scan.Current().key)
      decreases if scan.ended then 0 else 1 + upper - scan.Current().key
    {
      var e := scan.Take();
      if !scan.ended && !scan.latched {
        scan.Latch();
      } else if !scan.ended {
        StandsBefore(scan);
      }
      assert !scan.ended ==> scan.Past(e.key);
      CollectNext(out, m, m, m, lower, upper, e, scan.Bound());
      out := out + [e];
    }
  }

  ghost predicate AllFrom(out: seq<Entry>, lower: Key) {
    forall e :: e in out ==> lower <= e.key
  }

  /** The first pair is at or above `lower` exactly when the leaf has no more keys below it than slots
      before the scan. */
  lemma FirstKey(scan: IxScan, lower: Key)
    requires scan.Valid() && (!scan.ended ==> scan.latched && scan.slot <= scan.BelowHere(lower))
    ensures !scan.ended ==> (lower <= scan.Current().key <==> scan.slot == scan.BelowHere(lower))
  {
    if !scan.ended {
      assert PageOk(scan.ih.View(), scan.ih.g, scan.page, {});
      CountSplits(scan.ih.pages[scan.page].ents, lower);
    }
  }

  // ---------------------------------------------------------------- inserts in between

  /** What a one-leaf insert leaves of a position. */
  lemma InsertLeavesPosition(s: Ix, g: Shape, s': Ix, g': Shape, leaf: int, e: Entry, p: int, slot: nat)
    requires Valid(s, g) && Valid(s', g') && g'.info == g.info && leaf in s.pages && leaf in g.info && p in s.pages
    requires leaf in s'.pages && IxIndex.Inserted(s.pages[leaf], s'.pages[leaf], e)
             && s'.pages == s.pages[leaf := s'.pages[leaf]]
    requires p in g.info && g.info[p].level == 0 && slot <= |s.pages[p].ents|
    ensures p in s'.pages && s'.pages[p].next == s.pages[p].next
    ensures |s.pages[p].ents| <= |s'.pages[p].ents| && (slot == |s'.pages[p].ents| ==> slot == |s.pages[p].ents|)
    ensures forall a :: NotPassed(s, g, p, slot, a) ==> NotPassed(s', g', p, slot, a)
    ensures forall x :: CountBelow(s.pages[p].ents, x) <= CountBelow(s'.pages[p].ents, x)
  {
    if p == leaf {
      var pos: nat :| pos <= |s.pages[p].ents| && s'.pages[p] == s.pages[p].(ents := InsertAt(s.pages[p].ents, pos, e));
      assert Sorted(s'.pages[p].ents, 0) by { assert PageOk(s', g', p, {}); }
      InsertLeavesSlots(s.pages[p].ents, pos, e, slot);
    }
  }

  lemma InsertLeavesSlots(ents: seq<Entry>, pos: nat, e: Entry, slot: nat)
    requires pos <= |ents| && slot <= |ents| && Sorted(InsertAt(ents, pos, e), 0)
    ensures forall i {:trigger InsertAt(ents, pos, e)[i]} :: 0 <= i < slot ==>
              InsertAt(ents, pos, e)[i].key <= ents[i].key
    ensures forall x :: CountBelow(ents, x) <= CountBelow(InsertAt(ents, pos, e), x)
  {
    forall i | 0 <= i < slot ensures InsertAt(ents, pos, e)[i].key <= ents[i].key { InsertedMovesUp(ents, pos, e, i); }
    forall x ensures CountBelow(ents, x) <= CountBelow(InsertAt(ents, pos, e), x) { CountInserted(ents, pos, e, x); }
  }

  /** A one-leaf insert of another thread; one that needs the leaf the scan has latched has to wait. */
  method InsertOne(scan: IxScan, e: Entry)
    requires scan.Valid() && !scan.ended
    modifies scan.ih
    ensures scan.Valid() && (scan.latched ==> scan.Current() == old(scan.Current()))
    ensures Grew(old(scan.ih.Contents()), scan.ih.Contents())
    ensures forall a :: old(scan.Ahead(a)) ==> scan.Ahead(a)
    ensures forall k :: old(scan.Past(k)) ==> scan.Past(k)
    ensures forall x :: old(scan.BelowHere(x)) <= scan.BelowHere(x)
  {
    var leaf := scan.ih.FindLeafPage(e.key);
    if scan.latched && leaf == scan.page {
      return;
    }
    ghost var s, g := scan.ih.View(), scan.ih.g;
    var done, ok, leafNo := scan.ih.FastInsert(e.key, e.rid, null);
    if ok {
      InsertLeavesPosition(s, g, scan.ih.View(), scan.ih.g, leafNo, e, scan.page, scan.slot);
    }
  }

  /** The inserts of `batch`, one after the other. */
  method InsertAround(scan: IxScan, batch: seq<Entry>)
    requires scan.Valid() && !scan.ended
    modifies scan.ih
    ensures scan.Valid() && (scan.latched ==> scan.Current() == old(scan.Current()))
    ensures Grew(old(scan.ih.Contents()), scan.ih.Contents())
    ensures forall a :: old(scan.Ahead(a)) ==> scan.Ahead(a)
    ensures forall k :: old(scan.Past(k)) ==> scan.Past(k)
    ensures forall x :: old(scan.BelowHere(x)) <= scan.BelowHere(x)
    ensures batch == [] ==> scan.ih.Contents() == old(scan.ih.Contents()) && scan.ih.pages == old(scan.ih.pages)
  {
    var i := 0;
    while i < |batch|
      invariant 0 <= i <= |batch|
      invariant scan.Valid() && (scan.latched ==> scan.Current() == old(scan.Current()))
      invariant Grew(old(scan.ih.Contents()), scan.ih.Contents())
      invariant forall a :: old(scan.Ahead(a)) ==> scan.Ahead(a)
      invariant forall k :: old(scan.Past(k)) ==> scan.Past(k)
      invariant forall x :: old(scan.BelowHere(x)) <= scan.BelowHere(x)
      invariant i == 0 ==> scan.ih.Contents() == old(scan.ih.Contents()) && scan.ih.pages == old(scan.ih.pages)
    {
      InsertOne(scan, batch[i]);
      i := i + 1;
    }
  }

  ghost predicate Grew(a: map<Key, Rid>, b: map<Key, Rid>) {
    forall k :: k in a ==> k in b && b[k] == a[k]
  }

  /** The inserts that arrive before the leaf is latched, and the latch. */
  method Arrive(scan: IxScan, batch: seq<Entry>)
    requires scan.Valid() && !scan.ended
    modifies scan, scan.ih
    ensures scan.Valid() && scan.page == old(scan.page) && scan.slot == old(scan.slot) && (!scan.ended ==> scan.latched)
    ensures Grew(old(scan.ih.Contents()), scan.ih.Contents())
    ensures forall a :: a in old(scan.ih.Contents()) && old(scan.Ahead(a)) ==>
              if scan.ended then scan.upper < a else scan.Current().key <= a
    ensures !scan.ended ==> forall k :: old(scan.Past(k)) ==> k < scan.Current().key
    ensures !scan.ended ==> forall x :: old(scan.BelowHere(x)) <= scan.BelowHere(x)
    ensures batch == [] ==> scan.ih.Contents() == old(scan.ih.Contents()) && scan.ih.pages == old(scan.ih.pages)
  {
    InsertAround(scan, batch);
    if !scan.latched {
      scan.Latch();
    } else {
      StandsBefore(scan);
    }
  }

  lemma StandsBefore(scan: IxScan)
    requires scan.Standing()
    ensures forall a :: a in scan.ih.Contents() && scan.Ahead(a) ==> scan.Current().key <= a
  {
    forall a | a in scan.ih.Contents() && scan.Ahead(a) ensures scan.Current().key <= a {
      FirstFrom(scan.ih.View(), scan.ih.g, scan.page, scan.slot, a, a);
    }
  }

  /** One step of the scan and the inserts that arrive with it. */
  method StepAmong(scan: IxScan, batch: seq<Entry>) returns (e: Entry)
    requires scan.Standing()
    modifies scan, scan.ih
    ensures scan.Valid() && (!scan.ended ==> scan.latched) && e == old(scan.Current()) && e.key <= scan.upper
    ensures Grew(old(scan.ih.Contents()), scan.ih.Contents())
    ensures e.key in old(scan.ih.Contents()) && old(scan.ih.Contents())[e.key] == e.rid
    ensures !scan.ended ==> e.key < scan.Current().key
    ensures forall a :: a in old(scan.ih.Contents()) && e.key < a ==>
              if scan.ended then scan.upper < a else scan.Current().key <= a
    ensures batch == [] ==> scan.ih.Contents() == old(scan.ih.Contents())
  {
    e := scan.Take();
    if !scan.ended {
      Arrive(scan, batch);
    }
  }

  /** A scan interleaved with one-leaf inserts of other threads: `script[0]` arrives between the choice
      of the first slot and its latch, `script[t]` with step t. The scan ascends, stays within the upper
      bound, yields every pair of the range that was there when it began, and nothing that is not in
      the tree when it ends. `before` and `after` count the keys below `lower` in the first leaf when
      the slot is chosen and when the leaf is latched: it stays within the lower bound if and only if
      there are no more of them then. */
  method ScanAmongInserts(ih: IxIndexHandle, lower: Key, upper: Key, script: seq<seq<Entry>>)
      returns (out: seq<Entry>, ghost before: nat, ghost after: nat)
    requires ih.Valid()
    modifies ih
    ensures ih.Valid() && Ascending(out)
    ensures forall a :: a in old(ih.Contents()) && lower <= a <= upper ==> Entry(a, old(ih.Contents())[a]) in out
    ensures forall e :: e in out ==> e.key in ih.Contents() && ih.Contents()[e.key] == e.rid && e.key <= upper
    ensures before <= after && (AllFrom(out, lower) <==> out == [] || before == after)
    ensures script == [] ==> ih.Contents() == old(ih.Contents()) && before == after
  {
    ghost var m0 := ih.Contents();
    var scan;
    scan, before, after := StartAmong(ih, lower, upper, if |script| > 0 then script[0] else []);
    ghost var first := scan.Bound();
    out := [];
    var t: nat := 1;
    while !scan.ended
      invariant fresh(scan) && scan.Valid() && scan.ih == ih && scan.upper == upper && (!scan.ended ==> scan.latched)
      invariant Collected(out, m0, ih.Contents(), lower, upper, scan.Bound())
      invariant first == if out == [] then scan.Bound() else out[0].key
      invariant script == [] ==> ih.Contents() == m0
      decreases if scan.ended then 0 else 1 + upper - scan.Current().key
    {
      out := CollectStep(scan, if t < |script| then script[t] else [], out, m0, lower);
      t := t + 1;
    }
    FirstIsLeast(out, lower);
  }

  method CollectStep(scan: IxScan, batch: seq<Entry>, out: seq<Entry>, ghost m0: map<Key, Rid>, ghost lower: Key)
      returns (out': seq<Entry>)
    requires scan.Standing() && Collected(out, m0, scan.ih.Contents(), lower, scan.upper, scan.Bound())
    modifies scan, scan.ih
    ensures scan.Valid() && (!scan.ended ==> scan.latched && old(scan.Bound()) < scan.Bound())
    ensures out' == out + [old(scan.Current())]
            && Collected(out', m0, scan.ih.Contents(), lower, scan.upper, scan.Bound())
    ensures batch == [] ==> scan.ih.Contents() == old(scan.ih.Contents())
  {
    ghost var m := scan.ih.Contents();
    var e := StepAmong(scan, batch);
    CollectNext(out, m0, m, scan.ih.Contents(), lower, scan.upper, e, scan.Bound());
    out' := out + [e];
  }

  /** The start of the scan: slot, inserts, latch. */
  method StartAmong(ih: IxIndexHandle, lower: Key, upper: Key, batch: seq<Entry>)
      returns (scan: IxScan, ghost before: nat, ghost after: nat)
    requires ih.Valid()
    modifies ih
    ensures fresh(scan) && scan.Valid() && scan.ih == ih && scan.upper == upper && (!scan.ended ==> scan.latched)
    ensures Collected([], old(ih.Contents()), ih.Contents(), lower, upper, scan.Bound())
    ensures before <= after && (!scan.ended ==> (lower <= scan.Current().key <==> before == after))
    ensures batch == [] ==> ih.Contents() == old(ih.Contents()) && before == after
  {
    scan := new IxScan(ih, lower, upper);
    before := scan.BelowHere(lower);
    Arrive(scan, batch);
    after := if scan.ended then before else scan.BelowHere(lower);
    FirstKey(scan, lower);
  }

  lemma FirstIsLeast(out: seq<Entry>, lower: Key)
    requires Ascending(out)
    ensures AllFrom(out, lower) <==> out == [] || lower <= out[0].key
  {
    if out != [] {
      assert out[0] in out;
      forall e | e in out ensures out[0].key <= e.key {
        var i :| 0 <= i < |out| && out[i] == e;
        if i > 0 { assert out[0].key < out[i].key; }
      }
    }
  }

  /** `out` has every pair of `m0` in the range below `bound`, in order, and only pairs of `m` below it. */
  ghost predicate Collected(out: seq<Entry>, m0: map<Key, Rid>, m: map<Key, Rid>, lower: Key, upper: Key, bound: Key) {
    && Ascending(out) && Grew(m0, m)
    && (forall e :: e in out ==> e.key in m && m[e.key] == e.rid && e.key <= upper && e.key < bound)
    && (forall a :: a in m0 && lower <= a <= upper && a < bound ==> Entry(a, m0[a]) in out)
  }

  lemma CollectNext(out: seq<Entry>, m0: map<Key, Rid>, m: map<Key, Rid>, m': map<Key, Rid>, lower: Key, upper: Key,
                    e: Entry, bound: Key)
    requires Collected(out, m0, m, lower, upper, e.key) && e.key <= upper && Grew(m, m') && e.key in m
             && m[e.key] == e.rid && e.key < bound
    requires forall a :: a in m && e.key < a <= upper ==> bound <= a
    ensures Collected(out + [e], m0, m', lower, upper, bound)
  {
    forall d | d in out + [e] ensures d.key in m' && m'[d.key] == d.rid && d.key <= upper && d.key < bound { }
    forall a | a in m0 && lower <= a <= upper && a < bound ensures Entry(a, m0[a]) in out + [e] { }
    forall i, j | 0 <= i < j < |out + [e]| ensures (out + [e])[i].key < (out + [e])[j].key {
      assert out[i] in out;
    }
  }

  /** An insert between the choice of the first slot and its latch: in a tree with `b` and `c` around
      `lower`, one of `a` below both makes the scan stand on `b`, which is below its lower bound. */
  method ScanStartsBelow(order: int, a: Key, b: Key, lower: Key, c: Key, rid: Rid) returns (scan: IxScan)
    requires order > 2 && a < b < lower <= c
    ensures scan.Standing() && scan.Current().key == b < lower && scan.upper == c
  {
    var x, y, z := Entry(a, rid), Entry(b, rid), Entry(c, rid);
    var ih := TwoKeys(order, y, z);
    scan := StartAtSecond(ih, lower, c, y, z);
    assert [x] + [y, z] == [x, y, z];
    Put(ih, [y, z], x, [x, y, z]);
    scan.Latch();
  }

  method TwoKeys(order: int, y: Entry, z: Entry) returns (ih: IxIndexHandle)
    requires order > 2 && y.key < z.key
    ensures fresh(ih) && OneLeaf(ih, [y, z]) && ih.order == order && ih.Contents().Keys == {y.key, z.key}
  {
    ih := OneKey(order, y);
    assert [y] + [z] == [y, z];
    Put(ih, [y], z, [y, z]);
  }

  method OneKey(order: int, y: Entry) returns (ih: IxIndexHandle)
    requires order > 2
    ensures fresh(ih) && OneLeaf(ih, [y]) && ih.order == order && ih.Contents().Keys == {y.key}
  {
    ih := new IxIndexHandle(order);
    assert [] + [y] == [y];
    Put(ih, [], y, [y]);
  }

  method StartAtSecond(ih: IxIndexHandle, lower: Key, upper: Key, ghost y: Entry, ghost z: Entry) returns (scan: IxScan)
    requires OneLeaf(ih, [y, z]) && y.key < lower <= z.key
    ensures fresh(scan) && scan.Valid() && scan.ih == ih && scan.upper == upper && !scan.ended && !scan.latched
    ensures scan.page == INIT_ROOT_PAGE && scan.slot == 1
  {
    scan := new IxScan(ih, lower, upper);
    LeafSorted(ih, INIT_ROOT_PAGE);
    CountIs([y, z], lower, 1);
  }

  /** The root is the only leaf and has these entries. */
  ghost predicate OneLeaf(ih: IxIndexHandle, ents: seq<Entry>)
    reads ih
  {
    && ih.Valid() && ih.g.info == map[INIT_ROOT_PAGE := Info(0, 0, NegInf, PosInf)]
    && INIT_ROOT_PAGE in ih.pages && ih.pages[INIT_ROOT_PAGE].ents == ents
        && ih.pages[INIT_ROOT_PAGE].next == LEAF_HEADER_PAGE
  }

  method Put(ih: IxIndexHandle, ghost ents: seq<Entry>, e: Entry, ghost after: seq<Entry>)
    requires OneLeaf(ih, ents) && |ents| < ih.order && e.key !in ih.Contents()
    requires after == ents + [e] || after == [e] + ents
    requires Sorted(after, 0)
    modifies ih`pages, ih`g
    ensures OneLeaf(ih, after) && ih.Contents() == old(ih.Contents())[e.key := e.rid]
  {
    var done, ok, leaf := ih.FastInsert(e.key, e.rid, null);
    assert leaf == INIT_ROOT_PAGE;
    LeafSorted(ih, leaf);
    OneMore(ents, ih.pages[leaf].ents, e, after);
  }

  /** There is one place for an entry among the sorted others. */
  lemma OneMore(ents: seq<Entry>, found: seq<Entry>, e: Entry, after: seq<Entry>)
    requires Sorted(found, 0) && exists pos: nat {:trigger InsertAt(ents, pos, e)} ::
               pos <= |ents| && found == InsertAt(ents, pos, e)
    requires Sorted(after, 0) && (after == ents + [e] || after == [e] + ents)
    ensures found == after
  {
    var pos: nat :| pos <= |ents| && found == InsertAt(ents, pos, e);
    PlaceIs(ents, pos, e);
    if after == ents + [e] {
      assert InsertAt(ents, |ents|, e) == after;
      PlaceIs(ents, |ents|, e);
    } else {
      assert InsertAt(ents, 0, e) == after;
      PlaceIs(ents, 0, e);
    }
  }

  lemma PlaceIs(ents: seq<Entry>, pos: nat, e: Entry)
    requires pos <= |ents| && Sorted(InsertAt(ents, pos, e), 0)
    ensures CountBelow(ents, e.key) == pos
  {
    assert InsertAt(ents, pos, e)[pos] == e;
    CountIs(InsertAt(ents, pos, e), e.key, pos);
    CountInserted(ents, pos, e, e.key);
  }

  lemma LeafSorted(ih: IxIndexHandle, p: int)
    requires ih.Valid() && p in ih.g.info && p in ih.pages && ih.g.info[p].level == 0
    ensures Sorted(ih.pages[p].ents, 0)
  {
    assert PageOk(ih.View(), ih.g, p, {});
  }
}
