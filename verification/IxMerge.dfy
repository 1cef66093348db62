/** Merging a page into its left neighbour and dropping the slot that named it. */
module IxMerge {
  import opened IxModel
  import opened IxSteps
  import opened IxRebalance

  /** Both neighbours fit into one page and the parent keeps a child. */
  ghost predicate CanMerge(s: Ix, g: Shape, x: set<int>, q: int, j: int, l: int, r: int) {
    && Inv(s, g, x, NO_PAGE)
    && Neighbours(s, g, q, j, l, r)
    && l in s.pages && r in s.pages && l in g.info && r in g.info
    && MinSize(s) <= |s.pages[l].ents| + |s.pages[r].ents| < MaxSize(s)
    && (s.pages[l].isLeaf ==> s.pages[r].next in s.pages)
  }

  ghost function MergePage(s: Ix, g: Shape, q: int, j: int, l: int, r: int, c: int): Page
    requires l in s.pages && r in s.pages && q in s.pages && c in s.pages && 0 <= j < |s.pages[q].ents| - 1
  {
    if c == l then
      s.pages[l].(ents := Both(s, l, r), next := if s.pages[l].isLeaf then s.pages[r].next else s.pages[l].next)
    else if c == q then s.pages[q].(ents := RemoveAt(s.pages[q].ents, j + 1))
    else if KidOf(s, g, r, c) then s.pages[c].(parent := l)
    else if s.pages[l].isLeaf && c == s.pages[r].next then s.pages[c].(prev := l)
    else s.pages[c]
  }

  ghost function MergeInfo(s: Ix, g: Shape, q: int, j: int, l: int, r: int, c: int): Info
    requires l in s.pages && r in g.info && c in g.info && 0 <= j
  {
    var f := g.info[c];
    if c == l then f.(hi := g.info[r].hi)
    else if KidOf(s, g, r, c) then f.(idx := |s.pages[l].ents| + f.idx)
    else if KidOf(s, g, q, c) && f.idx > j + 1 then f.(idx := f.idx - 1)
    else f
  }

  ghost function MergeOwn(s: Ix, g: Shape, a: Key, l: int, r: int): map<Key, Sep>
    requires l in s.pages && l in g.info
  {
    map e | e in g.own && (e == a ==> !s.pages[l].isLeaf) ::
      if e == a then Sep(l, g.info[l].level)
      else if g.own[e].page == r then g.own[e].(page := l) else g.own[e]
  }

  ghost function Without(chain: seq<int>, r: int): seq<int> {
    if chain == [] then [] else if chain[0] == r then chain[1..] else [chain[0]] + Without(chain[1..], r)
  }

  ghost function MergeShape(s: Ix, g: Shape, q: int, j: int, l: int, r: int): Shape
    requires l in s.pages && l in g.info && r in g.info && q in s.pages && 0 <= j < |s.pages[q].ents| - 1
  {
    g.(info := map c | c in g.info && c != r :: MergeInfo(s, g, q, j, l, r, c),
       own := MergeOwn(s, g, s.pages[q].ents[j + 1].key, l, r),
       chain := if s.pages[l].isLeaf then Without(g.chain, r) else g.chain,
       held := g.held + {r})
  }

  ghost predicate MergeCtx(s: Ix, g: Shape, x: set<int>, q: int, j: int, l: int, r: int, s': Ix, g': Shape) {
    && CanMerge(s, g, x, q, j, l, r)
    && g' == MergeShape(s, g, q, j, l, r)
    && s'.pages == (map c | c in s.pages :: MergePage(s, g, q, j, l, r, c))
    && s' == s.(pages := s'.pages, lastLeaf := if s.pages[l].isLeaf && s.lastLeaf == r then l else s.lastLeaf)
  }

  lemma RemoveAtSlots(ents: seq<Entry>, pos: nat, i: nat)
    requires pos < |ents| && i + 1 < |ents|
    ensures |RemoveAt(ents, pos)| == |ents| - 1
    ensures RemoveAt(ents, pos)[i] == (if i < pos then ents[i] else ents[i + 1])
    ensures i + 2 < |ents| ==> RemoveAt(ents, pos)[i + 1] == (if i + 1 < pos then ents[i + 1] else ents[i + 2])
  {
  }

  /** Dropping a slot other than 0 keeps the remaining separators sorted and inside. */
  lemma RemoveSeparator(ents: seq<Entry>, pos: nat, lo: Bound, hi: Bound)
    requires 1 <= pos < |ents|
    requires Sorted(ents, 1) && Within(ents, 1, lo, hi)
    requires forall i {:trigger ents[i]} :: 1 <= i < |ents| ==> lo != At(ents[i].key)
    ensures var es := RemoveAt(ents, pos);
            && Sorted(es, 1) && Within(es, 1, lo, hi)
            && (forall i {:trigger es[i]} :: 1 <= i < |es| ==> lo != At(es[i].key))
  {
    var es := RemoveAt(ents, pos);
    forall i | 1 <= i < |es| ensures es[i] == ents[if i < pos then i else i + 1] { }
  }

  /** Where the chain leads behind the absorbed leaf. */
  lemma NextFacts(s: Ix, g: Shape, x: set<int>, q: int, j: int, l: int, r: int)
    requires Inv(s, g, x, NO_PAGE) && Neighbours(s, g, q, j, l, r)
    requires l in s.pages && r in s.pages && s.pages[l].isLeaf
    ensures s.pages[r].prev == l && s.pages[l].next == r
    ensures var t := s.pages[r].next; t in s.pages && t != l && t != r && t != q
  {
    NeighbourFacts(s, g, x, q, j, l, r);
    assert PageOk(s, g, l, x) && PageOk(s, g, r, x) && PageOk(s, g, q, x);
    assert l in g.chain;
    var i :| 0 <= i < |g.chain| && g.chain[i] == l;
    ChainNext(s, g, i, l, r);
    assert LinkOk(s, g, i) && LinkOk(s, g, i + 1);
    assert Placed(s, g, LEAF_HEADER_PAGE);
    if i + 2 < |g.chain| {
      assert LinkOk(s, g, i + 2);
      ChainLoUp(s, g, i + 1, i + 2);
      ChainLoUp(s, g, i, i + 2);
    }
  }

  // ---------------------------------------------------------------- pages and links

  lemma MergePagesOk(s: Ix, g: Shape, x: set<int>, q: int, j: int, l: int, r: int, s': Ix, g': Shape)
    requires MergeCtx(s, g, x, q, j, l, r, s', g')
    ensures PagesOk(s', g', x - {l, r} + {q})
  {
    forall c | c in g'.info ensures PageOk(s', g', c, x - {l, r} + {q}) {
      if c == l {
        MergePageHere(s, g, x, q, j, l, r, s', g');
      } else if c == q {
        MergePageParent(s, g, x, q, j, l, r, s', g');
      } else {
        MergePageOther(s, g, x, q, j, l, r, s', g', c);
      }
    }
  }

  lemma MergePageParent(s: Ix, g: Shape, x: set<int>, q: int, j: int, l: int, r: int, s': Ix, g': Shape)
    requires MergeCtx(s, g, x, q, j, l, r, s', g')
    ensures PageOk(s', g', q, x - {l, r} + {q})
  {
    MergeAtParent(s, g, x, q, j, l, r, s', g');
    assert PageOk(s, g, q, x);
    ParentShrinks(s, g, x, q, j + 1, s', g', x - {l, r} + {q});
  }

  /** The parent loses the separator; nothing else about it or the root changes. */
  lemma MergeAtParent(s: Ix, g: Shape, x: set<int>, q: int, j: int, l: int, r: int, s': Ix, g': Shape)
    requires MergeCtx(s, g, x, q, j, l, r, s', g')
    ensures q in s'.pages && s'.pages[q] == s.pages[q].(ents := RemoveAt(s.pages[q].ents, j + 1))
    ensures q in g.info && q in g'.info && g'.info[q].level == g.info[q].level
    ensures g'.info[q].lo == g.info[q].lo && g'.info[q].hi == g.info[q].hi
    ensures s.root in g.info && s.root in g'.info && g'.info[s.root].level == g.info[s.root].level
  {
    NeighbourFacts(s, g, x, q, j, l, r);
    assert PageOk(s, g, q, x);
  }

  lemma ParentShrinks(s: Ix, g: Shape, x: set<int>, q: int, pos: int, s': Ix, g': Shape, x': set<int>)
    requires PageOk(s, g, q, x) && !s.pages[q].isLeaf && q in x' && 1 <= pos < |s.pages[q].ents|
    requires q in s'.pages && s'.pages[q] == s.pages[q].(ents := RemoveAt(s.pages[q].ents, pos))
    requires q in g'.info && g'.info[q].level == g.info[q].level
    requires g'.info[q].lo == g.info[q].lo && g'.info[q].hi == g.info[q].hi
    requires s'.root == s.root && s.root in g'.info && g'.info[s.root].level == g.info[s.root].level
    requires s'.order == s.order && s'.numPages == s.numPages
    ensures PageOk(s', g', q, x')
  {
    RemoveSeparator(s.pages[q].ents, pos, g.info[q].lo, g.info[q].hi);
  }

  lemma MergePageOther(s: Ix, g: Shape, x: set<int>, q: int, j: int, l: int, r: int, s': Ix, g': Shape, c: int)
    requires MergeCtx(s, g, x, q, j, l, r, s', g') && c in g'.info && c != l && c != q
    ensures PageOk(s', g', c, x - {l, r} + {q})
  {
    NeighbourFacts(s, g, x, q, j, l, r);
    assert PageOk(s, g, c, x) && PageOk(s, g, s.root, x);
  }

  lemma MergePageHere(s: Ix, g: Shape, x: set<int>, q: int, j: int, l: int, r: int, s': Ix, g': Shape)
    requires MergeCtx(s, g, x, q, j, l, r, s', g')
    ensures PageOk(s', g', l, x - {l, r} + {q})
  {
    NeighbourFacts(s, g, x, q, j, l, r);
    BothSorted(s, g, x, q, j, l, r);
    assert PageOk(s, g, l, x) && PageOk(s, g, r, x) && PageOk(s, g, s.root, x);
    assert s'.pages[l].ents == Both(s, l, r);
  }

  lemma MergeUpsOk(s: Ix, g: Shape, x: set<int>, q: int, j: int, l: int, r: int, s': Ix, g': Shape)
    requires MergeCtx(s, g, x, q, j, l, r, s', g')
    ensures UpsOk(s', g')
  {
    NeighbourFacts(s, g, x, q, j, l, r);
    forall c | c in g'.info ensures UpOk(s', g', c) {
      MergeUp(s, g, x, q, j, l, r, s', g', c);
    }
  }

  lemma MergeUp(s: Ix, g: Shape, x: set<int>, q: int, j: int, l: int, r: int, s': Ix, g': Shape, c: int)
    requires MergeCtx(s, g, x, q, j, l, r, s', g') && c in g'.info
    ensures UpOk(s', g', c)
  {
    NeighbourFacts(s, g, x, q, j, l, r);
    assert UpOk(s, g, c);
    if KidOf(s, g, r, c) {
      assert PageOk(s, g, r, x);
    } else if c != s.root && KidOf(s, g, q, c) {
      MergeUpSibling(s, g, x, q, j, l, r, s', g', c);
    }
  }

  lemma MergeUpSibling(s: Ix, g: Shape, x: set<int>, q: int, j: int, l: int, r: int, s': Ix, g': Shape, c: int)
    requires MergeCtx(s, g, x, q, j, l, r, s', g') && c in g'.info && c != s.root && KidOf(s, g, q, c)
             && !KidOf(s, g, r, c)
    ensures UpOk(s', g', c)
  {
    NeighbourFacts(s, g, x, q, j, l, r);
    assert UpOk(s, g, c);
    assert g.info[c].idx != j + 1;
    RemoveAtSlots(s.pages[q].ents, j + 1, g'.info[c].idx);
  }

  lemma MergeKidsOk(s: Ix, g: Shape, x: set<int>, q: int, j: int, l: int, r: int, s': Ix, g': Shape)
    requires MergeCtx(s, g, x, q, j, l, r, s', g')
    ensures KidsOk(s', g', NO_PAGE)
  {
    forall u, i | IsSlot(s', g', u, i) ensures KidOk(s', g', u, i, NO_PAGE) {
      if u == l {
        MergeKidHere(s, g, x, q, j, l, r, s', g', i);
      } else if u == q {
        MergeKidParent(s, g, x, q, j, l, r, s', g', i);
      } else {
        MergeKidOther(s, g, x, q, j, l, r, s', g', u, i);
      }
    }
  }

  lemma MergeKidHere(s: Ix, g: Shape, x: set<int>, q: int, j: int, l: int, r: int, s': Ix, g': Shape, o: int)
    requires MergeCtx(s, g, x, q, j, l, r, s', g') && IsSlot(s', g', l, o)
    ensures KidOk(s', g', l, o, NO_PAGE)
  {
    NeighbourFacts(s, g, x, q, j, l, r);
    BothSorted(s, g, x, q, j, l, r);
    assert PageOk(s, g, l, x) && PageOk(s, g, r, x);
    var es, le := Both(s, l, r), |s.pages[l].ents|;
    assert s'.pages[l].ents == es;
    if o < le {
      assert KidOk(s, g, l, o, NO_PAGE);
      assert es[o] == s.pages[l].ents[o];
      if o + 1 == le { assert es[o + 1] == s.pages[r].ents[0]; }
    } else {
      assert KidOk(s, g, r, o - le, NO_PAGE);
      assert es[o] == s.pages[r].ents[o - le];
    }
  }

  lemma MergeKidParent(s: Ix, g: Shape, x: set<int>, q: int, j: int, l: int, r: int, s': Ix, g': Shape, i: int)
    requires MergeCtx(s, g, x, q, j, l, r, s', g') && IsSlot(s', g', q, i)
    ensures KidOk(s', g', q, i, NO_PAGE)
  {
    NeighbourFacts(s, g, x, q, j, l, r);
    var ents := s.pages[q].ents;
    assert s'.pages[q].ents == RemoveAt(ents, j + 1);
    RemoveAtSlots(ents, j + 1, i);
    var o := if i <= j then i else i + 1;
    assert KidOk(s, g, q, o, NO_PAGE) && KidOk(s, g, q, j + 1, NO_PAGE);
    var c := Child(s.pages[q], o);
    assert c == l <==> i == j;
    assert c != r && c != q && !KidOf(s, g, r, c);
  }

  lemma MergeKidOther(s: Ix, g: Shape, x: set<int>, q: int, j: int, l: int, r: int, s': Ix, g': Shape, u: int, i: int)
    requires MergeCtx(s, g, x, q, j, l, r, s', g') && IsSlot(s', g', u, i) && u != l && u != q
    ensures KidOk(s', g', u, i, NO_PAGE)
  {
    NeighbourFacts(s, g, x, q, j, l, r);
    assert PageOk(s, g, u, x);
    assert IsSlot(s, g, u, i);
    assert KidOk(s, g, u, i, NO_PAGE);
    var c := Child(s.pages[u], i);
    assert PageOk(s, g, c, x);
    assert u != r && c != l && c != r && !KidOf(s, g, r, c) && !KidOf(s, g, q, c);
  }

  // ---------------------------------------------------------------- separators

  lemma MergeOwnOk(s: Ix, g: Shape, x: set<int>, q: int, j: int, l: int, r: int, s': Ix, g': Shape)
    requires MergeCtx(s, g, x, q, j, l, r, s', g')
    ensures OwnOk(s', g')
  {
    forall u, i | IsSlot(s', g', u, i) && 1 <= i ensures OwnAt(s', g', u, i) {
      MergeOwnAt(s, g, x, q, j, l, r, s', g', u, i);
    }
    forall e, u | e in g'.own && u in g'.info && g'.info[u].level == 0 ensures Outside(g', e, u) {
      NeighbourFacts(s, g, x, q, j, l, r);
      assert PageOk(s, g, l, x) && PageOk(s, g, r, x);
      assert Outside(g, e, u);
      if u == l { assert Outside(g, e, r); }
    }
    forall u | u in g'.info ensures Fenced(g', u) {
      MergeFenced(s, g, x, q, j, l, r, s', g', u);
    }
  }

  lemma MergeFenced(s: Ix, g: Shape, x: set<int>, q: int, j: int, l: int, r: int, s': Ix, g': Shape, u: int)
    requires MergeCtx(s, g, x, q, j, l, r, s', g') && u in g'.info
    ensures Fenced(g', u)
  {
    NeighbourFacts(s, g, x, q, j, l, r);
    assert PageOk(s, g, q, x) && PageOk(s, g, l, x) && PageOk(s, g, r, x);
    assert OwnAt(s, g, q, j + 1);
    assert Fenced(g, u) && Fenced(g, l) && Fenced(g, r);
    if g.info[u].level + 1 == g.info[q].level { SepBounds(s, g, NO_PAGE, q, j + 1, u); }
  }

  lemma MergeOwnHere(s: Ix, g: Shape, x: set<int>, q: int, j: int, l: int, r: int, s': Ix, g': Shape, i: int)
    requires MergeCtx(s, g, x, q, j, l, r, s', g') && IsSlot(s', g', l, i) && 1 <= i
    ensures OwnAt(s', g', l, i)
  {
    NeighbourFacts(s, g, x, q, j, l, r);
    assert OwnAt(s, g, q, j + 1);
    var le := |s.pages[l].ents|;
    assert s'.pages[l].ents == Both(s, l, r);
    if i < le {
      assert OwnAt(s, g, l, i);
    } else if i > le {
      assert OwnAt(s, g, r, i - le);
    } else {
      assert s'.pages[l].ents[i] == s.pages[r].ents[0];
    }
  }

  lemma MergeOwnAt(s: Ix, g: Shape, x: set<int>, q: int, j: int, l: int, r: int, s': Ix, g': Shape, u: int, i: int)
    requires MergeCtx(s, g, x, q, j, l, r, s', g') && IsSlot(s', g', u, i) && 1 <= i
    ensures OwnAt(s', g', u, i)
  {
    if u == l {
      MergeOwnHere(s, g, x, q, j, l, r, s', g', i);
    } else if u == q {
      MergeOwnParent(s, g, x, q, j, l, r, s', g', i);
    } else {
      MergeOwnOther(s, g, x, q, j, l, r, s', g', u, i);
    }
  }

  lemma MergeOwnParent(s: Ix, g: Shape, x: set<int>, q: int, j: int, l: int, r: int, s': Ix, g': Shape, i: int)
    requires MergeCtx(s, g, x, q, j, l, r, s', g') && IsSlot(s', g', q, i) && 1 <= i
    ensures OwnAt(s', g', q, i)
  {
    NeighbourFacts(s, g, x, q, j, l, r);
    MergeAtParent(s, g, x, q, j, l, r, s', g');
    assert PageOk(s, g, q, x) && OwnAt(s, g, q, j + 1);
    RemoveAtSlots(s.pages[q].ents, j + 1, i);
    assert OwnAt(s, g, q, if i <= j then i else i + 1);
  }

  lemma MergeOwnOther(s: Ix, g: Shape, x: set<int>, q: int, j: int, l: int, r: int, s': Ix, g': Shape, u: int, i: int)
    requires MergeCtx(s, g, x, q, j, l, r, s', g') && IsSlot(s', g', u, i) && 1 <= i && u != l && u != q
    ensures OwnAt(s', g', u, i)
  {
    NeighbourFacts(s, g, x, q, j, l, r);
    assert PageOk(s, g, u, x);
    assert OwnAt(s, g, q, j + 1) && OwnAt(s, g, u, i);
  }

  // ---------------------------------------------------------------- leaves

  lemma WithoutSlots(chain: seq<int>, r: int, i: nat)
    requires i < |chain| && chain[i] == r
    requires forall k :: 0 <= k < i ==> chain[k] != r
    ensures Without(chain, r) == chain[..i] + chain[i + 1..]
  {
    if i > 0 {
      WithoutSlots(chain[1..], r, i - 1);
      assert chain == [chain[0]] + chain[1..];
    }
  }

  ghost predicate ChainDrop(g: Shape, g': Shape, l: int, r: int, m: int) {
    && 0 <= m < |g.chain| - 1 && g.chain[m] == l && g.chain[m + 1] == r
    && g'.chain == g.chain[..m + 1] + g.chain[m + 2..]
  }

  lemma MergeDrop(s: Ix, g: Shape, x: set<int>, q: int, j: int, l: int, r: int, s': Ix, g': Shape) returns (m: int)
    requires MergeCtx(s, g, x, q, j, l, r, s', g') && s.pages[l].isLeaf
    ensures ChainDrop(g, g', l, r, m)
  {
    NeighbourFacts(s, g, x, q, j, l, r);
    assert PageOk(s, g, l, x) && PageOk(s, g, r, x);
    assert l in g.chain;
    m :| 0 <= m < |g.chain| && g.chain[m] == l;
    ChainNext(s, g, m, l, r);
    forall k | 0 <= k < m + 1 ensures g.chain[k] != r { ChainLoUp(s, g, k, m + 1); }
    WithoutSlots(g.chain, r, m + 1);
  }

  lemma MergeChainOk(s: Ix, g: Shape, x: set<int>, q: int, j: int, l: int, r: int, s': Ix, g': Shape)
    requires MergeCtx(s, g, x, q, j, l, r, s', g') && s.pages[l].isLeaf
    ensures ChainOk(s', g')
  {
    var m := MergeDrop(s, g, x, q, j, l, r, s', g');
    forall i | 0 <= i < |g'.chain| ensures LinkOk(s', g', i) {
      MergeLink(s, g, x, q, j, l, r, s', g', m, i);
    }
    forall i, k | 0 <= i < k < |g'.chain| ensures ChainUp(g', i, k) {
      MergeChainUp(s, g, x, q, j, l, r, s', g', m, i, k);
    }
    forall c | c in g'.info && g'.info[c].level == 0 ensures c in g'.chain {
      MergeInChain(s, g, x, q, j, l, r, s', g', m, c);
    }
    MergeEnds(s, g, x, q, j, l, r, s', g', m);
  }

  lemma MergeInChain(s: Ix, g: Shape, x: set<int>, q: int, j: int, l: int, r: int, s': Ix, g': Shape, m: int, c: int)
    requires MergeCtx(s, g, x, q, j, l, r, s', g') && ChainDrop(g, g', l, r, m)
    requires c in g'.info && g'.info[c].level == 0
    ensures c in g'.chain
  {
    assert c in g.chain;
    var i :| 0 <= i < |g.chain| && g.chain[i] == c;
    assert g'.chain[if i <= m then i else i - 1] == c;
  }

  lemma MergeEnds(s: Ix, g: Shape, x: set<int>, q: int, j: int, l: int, r: int, s': Ix, g': Shape, m: int)
    requires MergeCtx(s, g, x, q, j, l, r, s', g') && s.pages[l].isLeaf && ChainDrop(g, g', l, r, m)
    ensures g'.chain[0] == s'.firstLeaf && g'.chain[|g'.chain| - 1] == s'.lastLeaf
    ensures LEAF_HEADER_PAGE in s'.pages
    ensures s'.pages[LEAF_HEADER_PAGE] == s.pages[LEAF_HEADER_PAGE].(prev := s'.lastLeaf)
  {
    NeighbourFacts(s, g, x, q, j, l, r);
    assert LinkOk(s, g, m + 1) && Placed(s, g, LEAF_HEADER_PAGE);
    assert PageOk(s, g, l, x) && PageOk(s, g, q, x);
    if m + 2 < |g.chain| {
      ChainLoUp(s, g, m + 1, |g.chain| - 1);
      assert LinkOk(s, g, m + 2) && PageOk(s, g, g.chain[m + 2], x);
    }
  }

  lemma MergeChainUp(s: Ix, g: Shape, x: set<int>, q: int, j: int, l: int, r: int, s': Ix, g': Shape, m: int, i: int,
                     k: int)
    requires MergeCtx(s, g, x, q, j, l, r, s', g') && s.pages[l].isLeaf
    requires ChainDrop(g, g', l, r, m) && 0 <= i < k < |g'.chain|
    ensures ChainUp(g', i, k)
  {
    var oi, ok := if i <= m then i else i + 1, if k <= m then k else k + 1;
    ChainLoUp(s, g, oi, ok);
    MergeLeaf(s, g, x, q, j, l, r, s', g', m, oi);
    MergeLeaf(s, g, x, q, j, l, r, s', g', m, ok);
  }

  lemma MergeLeaf(s: Ix, g: Shape, x: set<int>, q: int, j: int, l: int, r: int, s': Ix, g': Shape, m: int, o: int)
    requires MergeCtx(s, g, x, q, j, l, r, s', g') && s.pages[l].isLeaf
    requires ChainDrop(g, g', l, r, m) && 0 <= o < |g.chain| && o != m + 1
    ensures var c := g.chain[o];
            && c in g.info && c in g'.info && c in s.pages && c in s'.pages
            && g'.info[c].level == g.info[c].level == 0 && g'.info[c].lo == g.info[c].lo
            && g'.info[c].hi == (if o == m then g.info[r].hi else g.info[c].hi)
            && s'.pages[c].next == (if o == m then s.pages[r].next else s.pages[c].next)
            && s'.pages[c].prev == (if o == m + 2 then l else s.pages[c].prev)
  {
    NeighbourFacts(s, g, x, q, j, l, r);
    NextFacts(s, g, x, q, j, l, r);
    assert LinkOk(s, g, o) && LinkOk(s, g, m) && LinkOk(s, g, m + 1);
    assert PageOk(s, g, q, x);
    var c := g.chain[o];
    if o < m + 1 { ChainLoUp(s, g, o, m + 1); } else { ChainLoUp(s, g, m + 1, o); }
    if o < m { ChainLoUp(s, g, o, m); } else if o > m { ChainLoUp(s, g, m, o); }
    if m + 2 < |g.chain| {
      if o < m + 2 { ChainLoUp(s, g, o, m + 2); } else if o > m + 2 { ChainLoUp(s, g, m + 2, o); }
    }
    assert UpOk(s, g, c) && PageOk(s, g, c, x) && PageOk(s, g, r, x);
    assert !KidOf(s, g, r, c);
    assert Placed(s, g, LEAF_HEADER_PAGE);
  }

  lemma MergeLink(s: Ix, g: Shape, x: set<int>, q: int, j: int, l: int, r: int, s': Ix, g': Shape, m: int, i: int)
    requires MergeCtx(s, g, x, q, j, l, r, s', g') && s.pages[l].isLeaf
    requires ChainDrop(g, g', l, r, m) && 0 <= i < |g'.chain|
    ensures LinkOk(s', g', i)
  {
    var o := if i <= m then i else i + 1;
    assert LinkOk(s, g, o);
    MergeLeaf(s, g, x, q, j, l, r, s', g', m, o);
    if i == m { assert LinkOk(s, g, m + 1); }
    if i + 1 < |g'.chain| { MergeLeaf(s, g, x, q, j, l, r, s', g', m, if i + 1 <= m then i + 1 else i + 2); }
  }

  lemma MergeLeavesOk(s: Ix, g: Shape, x: set<int>, q: int, j: int, l: int, r: int, s': Ix, g': Shape)
    requires MergeCtx(s, g, x, q, j, l, r, s', g') && s.pages[l].isLeaf
    ensures LeavesOk(s', g')
  {
    NeighbourFacts(s, g, x, q, j, l, r);
    assert PageOk(s, g, l, x) && PageOk(s, g, r, x) && PageOk(s, g, q, x);
    forall c | c in g'.info && g'.info[c].level == 0 ensures LeafOk(s', g', c) {
      if c == l {
        MergeLeafHere(s, g, x, q, j, l, r, s', g');
      } else {
        MergeLeafOther(s, g, x, q, j, l, r, s', g', c);
      }
    }
  }

  lemma MergeLeafOther(s: Ix, g: Shape, x: set<int>, q: int, j: int, l: int, r: int, s': Ix, g': Shape, c: int)
    requires MergeCtx(s, g, x, q, j, l, r, s', g') && s.pages[l].isLeaf
    requires c in g'.info && g'.info[c].level == 0 && c != l
    ensures LeafOk(s', g', c)
  {
    NeighbourFacts(s, g, x, q, j, l, r);
    assert PageOk(s, g, q, x) && PageOk(s, g, l, x);
    assert LeafOk(s, g, c);
    forall k | k in g'.m && Covers(g', c, k) ensures HasKey(s'.pages[c].ents, k) { assert Covers(g, c, k); }
  }

  lemma MergeLeafHere(s: Ix, g: Shape, x: set<int>, q: int, j: int, l: int, r: int, s': Ix, g': Shape)
    requires MergeCtx(s, g, x, q, j, l, r, s', g') && s.pages[l].isLeaf
    ensures LeafOk(s', g', l)
  {
    NeighbourFacts(s, g, x, q, j, l, r);
    assert PageOk(s, g, l, x) && PageOk(s, g, r, x) && LeafOk(s, g, l) && LeafOk(s, g, r);
    var le, re, es := s.pages[l].ents, s.pages[r].ents, s'.pages[l].ents;
    assert es == le + re;
    forall k | k in g'.m && Covers(g', l, k) ensures HasKey(es, k) {
      if Covers(g, l, k) {
        assert HasKey(le, k);
        var i :| 0 <= i < |le| && le[i].key == k;
        assert es[i].key == k;
      } else {
        assert Covers(g, r, k);
        assert HasKey(re, k);
        var i :| 0 <= i < |re| && re[i].key == k;
        assert es[|le| + i].key == k;
      }
    }
  }

  lemma MergeFrame(s: Ix, g: Shape, x: set<int>, q: int, j: int, l: int, r: int, s': Ix, g': Shape)
    requires MergeCtx(s, g, x, q, j, l, r, s', g') && !s.pages[l].isLeaf
    ensures ChainOk(s', g') && LeavesOk(s', g')
  {
    NeighbourFacts(s, g, x, q, j, l, r);
    assert PageOk(s, g, l, x) && PageOk(s, g, r, x) && PageOk(s, g, q, x) && Placed(s, g, LEAF_HEADER_PAGE);
    forall c | c in g.info && g.info[c].level == 0 ensures SameLeaf(s, g, s', g', c) {
      assert PageOk(s, g, c, x);
    }
    LeafFrameKeeps(s, g, s', g');
  }

  lemma MergeFreeOk(s: Ix, g: Shape, x: set<int>, q: int, j: int, l: int, r: int, s': Ix, g': Shape)
    requires MergeCtx(s, g, x, q, j, l, r, s', g')
    ensures FreeOk(s', g')
  {
    NeighbourFacts(s, g, x, q, j, l, r);
    forall i | 0 <= i < |g'.free| ensures FreeLink(s', g', i) {
      assert FreeLink(s, g, i);
      assert Placed(s, g, g.free[i]);
    }
    forall c ensures Placed(s', g', c) {
      assert Placed(s, g, c);
    }
  }

  /** Merging keeps the tree; only the parent, one child shorter, may now be too small. */
  lemma MergeKeeps(s: Ix, g: Shape, x: set<int>, q: int, j: int, l: int, r: int, s': Ix, g': Shape)
    requires MergeCtx(s, g, x, q, j, l, r, s', g')
    ensures Inv(s', g', x - {l, r} + {q}, NO_PAGE)
  {
    MergePagesOk(s, g, x, q, j, l, r, s', g');
    MergeUpsOk(s, g, x, q, j, l, r, s', g');
    MergeKidsOk(s, g, x, q, j, l, r, s', g');
    MergeOwnOk(s, g, x, q, j, l, r, s', g');
    MergeFreeOk(s, g, x, q, j, l, r, s', g');
    if s.pages[l].isLeaf {
      MergeChainOk(s, g, x, q, j, l, r, s', g');
      MergeLeavesOk(s, g, x, q, j, l, r, s', g');
    } else {
      MergeFrame(s, g, x, q, j, l, r, s', g');
    }
  }

  // ---------------------------------------------------------------- the code's own steps

  /** Appends `r` to `l`, takes `r` out of the leaf chain or its children over, and drops the slot
      of `r` from the parent. */
  function MergeInto(s: Ix, q: int, j: nat, l: int, r: int): Ix
    requires l in s.pages && r in s.pages && q in s.pages && j + 1 < |s.pages[q].ents|
    requires s.pages[r].isLeaf ==> s.pages[r].prev in s.pages && s.pages[r].next in s.pages
    requires l != q
  {
    var p1 := s.pages[l := s.pages[l].(ents := s.pages[l].ents + s.pages[r].ents)];
    var p2 := if s.pages[r].isLeaf then
                var u := p1[p1[r].prev := p1[p1[r].prev].(next := p1[r].next)];
                u[u[r].next := u[u[r].next].(prev := u[r].prev)]
              else
                Reparent(p1, s.pages[r].ents, l);
    s.(pages := p2[q := p2[q].(ents := RemoveAt(s.pages[q].ents, j + 1))],
       lastLeaf := if s.pages[r].isLeaf && s.lastLeaf == r then l else s.lastLeaf)
  }

  lemma NamesKids(s: Ix, g: Shape, x: set<int>, q: int, j: int, l: int, r: int, c: int)
    requires Inv(s, g, x, NO_PAGE) && Neighbours(s, g, q, j, l, r)
    requires r in s.pages && !s.pages[r].isLeaf
    ensures Names(s.pages[r].ents, c) <==> KidOf(s, g, r, c)
    ensures KidOf(s, g, r, c) ==> c != l && c != q && c != r
  {
    NeighbourFacts(s, g, x, q, j, l, r);
    var ents := s.pages[r].ents;
    if Names(ents, c) {
      var i :| 0 <= i < |ents| && ents[i].rid.pageNo == c;
      assert KidOk(s, g, r, i, NO_PAGE);
    }
    if KidOf(s, g, r, c) {
      assert UpOk(s, g, c);
      assert ents[g.info[c].idx].rid.pageNo == c;
    }
  }

  lemma MergeIntoKeeps(s: Ix, g: Shape, x: set<int>, q: int, j: nat, l: int, r: int)
    requires Inv(s, g, x, NO_PAGE)
    requires Neighbours(s, g, q, j, l, r)
    requires l in s.pages && r in s.pages && l in g.info && r in g.info
    requires MinSize(s) <= |s.pages[l].ents| + |s.pages[r].ents| < MaxSize(s)
    ensures l != q
    ensures s.pages[r].isLeaf ==> s.pages[r].prev in s.pages && s.pages[r].next in s.pages
    ensures Inv(MergeInto(s, q, j, l, r), MergeShape(s, g, q, j, l, r), x - {l, r} + {q}, NO_PAGE)
  {
    NeighbourFacts(s, g, x, q, j, l, r);
    if s.pages[r].isLeaf { NextFacts(s, g, x, q, j, l, r); }
    var s' := MergeInto(s, q, j, l, r);
    forall c | c in s.pages ensures s'.pages[c] == MergePage(s, g, q, j, l, r, c) {
      if s.pages[r].isLeaf {
        LeafHasNoKids(s, g, r, c);
      } else {
        NamesKids(s, g, x, q, j, l, r, c);
      }
    }
    assert s'.pages.Keys == s.pages.Keys;
    MergeKeeps(s, g, x, q, j, l, r, s', MergeShape(s, g, q, j, l, r));
  }
}
