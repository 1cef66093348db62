/** What the invariant says of the bare pages, without the ghost shape: reachability, page
    conservation, uniform depth, separators and the leaf chain. */
module IxTheorems {
  import opened IxModel
  import opened IxSteps
  import Basics
  import KeyOrder

  /** `path` descends from page `from` through child slots. */
  ghost predicate Descends(s: Ix, from: int, path: seq<int>)
    decreases |path|
  {
    && |path| > 0 && path[0] == from
    && (|path| > 1 ==> ChildOf(s, from, path[1]) && Descends(s, path[1], path[1..]))
  }

  lemma {:induction false} DescendOneMore(s: Ix, from: int, path: seq<int>, c: int)
    requires Descends(s, from, path) && ChildOf(s, path[|path| - 1], c)
    ensures Descends(s, from, path + [c])
    decreases |path|
  {
    if |path| > 1 {
      DescendOneMore(s, path[1], path[1..], c);
      assert (path + [c])[1..] == path[1..] + [c];
    } else {
      assert (path + [c])[1..] == [c];
    }
  }

  ghost predicate ChildOf(s: Ix, p: int, c: int) {
    p in s.pages && !s.pages[p].isLeaf && Names(s.pages[p].ents, c)
  }

  ghost predicate Under(s: Ix, p: int, q: int) {
    exists path {:trigger Descends(s, p, path)} :: Descends(s, p, path) && path[|path| - 1] == q
  }

  lemma ChildFacts(s: Ix, g: Shape, x: set<int>, y: int, p: int, c: int)
    requires Inv(s, g, x, y) && p in g.info && ChildOf(s, p, c)
    ensures c in g.info && c in s.pages && c != s.root && s.pages[c].parent == p
    ensures g.info[c].level + 1 == g.info[p].level
    ensures g.info[c].idx < |s.pages[p].ents| && Child(s.pages[p], g.info[c].idx) == c
    ensures forall i {:trigger s.pages[p].ents[i]} ::
              0 <= i < |s.pages[p].ents| && s.pages[p].ents[i].rid.pageNo == c ==> i == g.info[c].idx
  {
    var ents := s.pages[p].ents;
    var i :| 0 <= i < |ents| && ents[i].rid.pageNo == c;
    assert KidOk(s, g, p, i, y);
    forall k | 0 <= k < |ents| && ents[k].rid.pageNo == c ensures k == g.info[c].idx { assert KidOk(s, g, p, k, y); }
  }

  /** Every page a path from a live page visits is live, one level lower each step. */
  lemma {:induction false} PathLevels(s: Ix, g: Shape, x: set<int>, y: int, p: int, path: seq<int>)
    requires Inv(s, g, x, y) && p in g.info && Descends(s, p, path)
    ensures var q := path[|path| - 1];
            q in g.info && g.info[q].level + |path| - 1 == g.info[p].level
    decreases |path|
  {
    if |path| > 1 {
      ChildFacts(s, g, x, y, p, path[1]);
      PathLevels(s, g, x, y, path[1], path[1..]);
    }
  }

  lemma {:induction false} PathTo(s: Ix, g: Shape, x: set<int>, y: int, q: int) returns (path: seq<int>)
    requires Inv(s, g, x, y) && q in g.info
    ensures Descends(s, s.root, path) && path[|path| - 1] == q
    decreases g.info[s.root].level - g.info[q].level
  {
    assert PageOk(s, g, q, x) && UpOk(s, g, q);
    if q == s.root {
      path := [q];
    } else {
      var p := s.pages[q].parent;
      assert PageOk(s, g, p, x);
      assert s.pages[p].ents[g.info[q].idx].rid.pageNo == q;
      var up := PathTo(s, g, x, y, p);
      path := up + [q];
      DescendOneMore(s, s.root, up, q);
    }
  }

  /** The live pages are exactly the pages reachable from the root. */
  lemma LiveIsReachable(s: Ix, g: Shape, q: int)
    requires Valid(s, g)
    ensures q in g.info <==> Under(s, s.root, q)
  {
    if q in g.info {
      var path := PathTo(s, g, {}, NO_PAGE, q);
    }
    if Under(s, s.root, q) {
      var path :| Descends(s, s.root, path) && path[|path| - 1] == q;
      PathLevels(s, g, {}, NO_PAGE, s.root, path);
    }
  }

  /** The pages of the free list, in the order the links lead through them. */
  ghost predicate FreeList(s: Ix, list: seq<int>) {
    && s.firstFree == (if |list| > 0 then list[0] else NO_PAGE)
    && (forall i {:trigger list[i]} :: 0 <= i < |list| ==>
          list[i] in s.pages && s.pages[list[i]].nextFree == (if i + 1 < |list| then list[i + 1] else NO_PAGE))
    && (forall i, j {:trigger list[i], list[j]} :: 0 <= i < j < |list| ==> list[i] != list[j])
  }

  /** Page conservation: at rest every page from 2 up to the high-water mark is either reachable
      from the root or on the free list, never both, and the free list does not repeat. */
  lemma PageConservation(s: Ix, g: Shape) returns (list: seq<int>)
    requires Valid(s, g)
    ensures FreeList(s, list)
    ensures forall p {:trigger p in list} :: INIT_ROOT_PAGE <= p < s.numPages <==> (Under(s, s.root, p) || p in list)
    ensures forall p {:trigger p in list} :: !(Under(s, s.root, p) && p in list)
  {
    list := g.free;
    forall i | 0 <= i < |list|
      ensures list[i] in s.pages && s.pages[list[i]].nextFree == (if i + 1 < |list| then list[i + 1] else NO_PAGE)
    {
      assert FreeLink(s, g, i);
    }
    forall p ensures INIT_ROOT_PAGE <= p < s.numPages <==> (Under(s, s.root, p) || p in list)
             ensures !(Under(s, s.root, p) && p in list)
    {
      assert Placed(s, g, p);
      LiveIsReachable(s, g, p);
    }
  }

  /** All leaves are at the same depth. */
  lemma UniformDepth(s: Ix, g: Shape, a: seq<int>, b: seq<int>)
    requires Valid(s, g)
    requires Descends(s, s.root, a) && a[|a| - 1] in s.pages && s.pages[a[|a| - 1]].isLeaf
    requires Descends(s, s.root, b) && b[|b| - 1] in s.pages && s.pages[b[|b| - 1]].isLeaf
    ensures |a| == |b|
  {
    PathLevels(s, g, {}, NO_PAGE, s.root, a);
    PathLevels(s, g, {}, NO_PAGE, s.root, b);
    assert PageOk(s, g, a[|a| - 1], {}) && PageOk(s, g, b[|b| - 1], {});
  }

  /** Sizes and parent pointers of the pages in the tree. */
  lemma PageSizes(s: Ix, g: Shape, p: int)
    requires Valid(s, g) && Under(s, s.root, p)
    ensures p in s.pages
    ensures var n := |s.pages[p].ents|;
            && n <= MaxSize(s) - 1
            && (p != s.root ==> MinSize(s) <= n)
            && (p == s.root && !s.pages[p].isLeaf ==> 2 <= n)
    ensures p == s.root ==> s.pages[p].parent == NO_PAGE
    ensures p != s.root ==> ChildOf(s, s.pages[p].parent, p) && Under(s, s.root, s.pages[p].parent)
    ensures forall c {:trigger ChildOf(s, p, c)} :: ChildOf(s, p, c) ==> c in s.pages && s.pages[c].parent == p
    ensures forall c, i {:trigger ChildOf(s, p, c), s.pages[p].ents[i]} ::
              (ChildOf(s, p, c) && 0 <= i < |s.pages[p].ents| && s.pages[p].ents[i].rid.pageNo == c
                  && !s.pages[c].isLeaf) ==>
              (|s.pages[c].ents| > 0 && s.pages[c].ents[0].key == s.pages[p].ents[i].key)
  {
    LiveIsReachable(s, g, p);
    assert PageOk(s, g, p, {}) && UpOk(s, g, p);
    if p != s.root {
      assert s.pages[s.pages[p].parent].ents[g.info[p].idx].rid.pageNo == p;
      LiveIsReachable(s, g, s.pages[p].parent);
    }
    forall c | ChildOf(s, p, c) ensures c in s.pages && s.pages[c].parent == p { ChildFacts(s, g, {}, NO_PAGE, p, c); }
    forall c, i | ChildOf(s, p, c) && 0 <= i < |s.pages[p].ents| && s.pages[p].ents[i].rid.pageNo == c
        && !s.pages[c].isLeaf
      ensures |s.pages[c].ents| > 0 && s.pages[c].ents[0].key == s.pages[p].ents[i].key
    {
      assert KidOk(s, g, p, i, NO_PAGE) && Placed(s, g, NO_PAGE);
    }
  }

  /** A page below another answers for part of its interval. */
  lemma {:induction false} PathWithin(s: Ix, g: Shape, x: set<int>, y: int, p: int, path: seq<int>, k: Key)
    requires Inv(s, g, x, y) && p in g.info && Descends(s, p, path)
    requires Covers(g, path[|path| - 1], k)
    ensures Covers(g, p, k)
    decreases |path|
  {
    if |path| > 1 {
      var c := path[1];
      ChildFacts(s, g, x, y, p, c);
      PathWithin(s, g, x, y, c, path[1..], k);
      ChildWithin(s, g, x, y, p, c, k);
    }
  }

  lemma ChildWithin(s: Ix, g: Shape, x: set<int>, y: int, p: int, c: int, k: Key)
    requires Inv(s, g, x, y) && p in g.info && p in s.pages && c in g.info && Covers(g, c, k)
    requires IsSlot(s, g, p, g.info[c].idx) && Child(s.pages[p], g.info[c].idx) == c
    ensures Covers(g, p, k)
    ensures g.info[c].idx > 0 ==> s.pages[p].ents[g.info[c].idx].key <= k
    ensures g.info[c].idx + 1 < |s.pages[p].ents| ==> k < s.pages[p].ents[g.info[c].idx + 1].key
  {
    var i := g.info[c].idx;
    assert KidOk(s, g, p, i, y) && PageOk(s, g, p, x);
    var ents := s.pages[p].ents;
    if i > 0 { assert Below(g.info[p].lo, ents[i].key); }
    if i + 1 < |ents| { assert Above(g.info[p].hi, ents[i + 1].key); }
  }

  /** No page ever outgrows its buffer: whatever pages are exempt from the size rules at the moment, as
      after an insertion and before the split, every page of the tree has at most order + 1 entries,
      and with the order `create_index` computes these fit the page. */
  lemma NoOverflow(s: Ix, g: Shape, x: set<int>, y: int, p: int, colTotLen: nat)
    requires Inv(s, g, x, y) && p in g.info && colTotLen <= KeyOrder.MAX_COL_LEN
             && s.order == KeyOrder.BtreeOrder(colTotLen)
    ensures p in s.pages && |s.pages[p].ents| <= s.order + 1
    ensures KeyOrder.PAGE_HDR_SIZE + |s.pages[p].ents| * (colTotLen + KeyOrder.RID_SIZE) <= KeyOrder.PAGE_SIZE
  {
    assert PageOk(s, g, p, x);
    Basics.MulMono(|s.pages[p].ents|, s.order + 1, colTotLen + KeyOrder.RID_SIZE);
  }

  /** Separators: a key in a leaf below slot `i` of `p` is at least the key of slot `i` and below
      the key of slot `i + 1`; only slot 0 has no lower bound. */
  lemma Separators(s: Ix, g: Shape, p: int, i: int, leaf: int, e: int)
    requires Valid(s, g) && Under(s, s.root, p) && p in s.pages && !s.pages[p].isLeaf && 0 <= i < |s.pages[p].ents|
    requires Under(s, Child(s.pages[p], i), leaf) && leaf in s.pages && s.pages[leaf].isLeaf
             && 0 <= e < |s.pages[leaf].ents|
    ensures i > 0 ==> s.pages[p].ents[i].key <= s.pages[leaf].ents[e].key
    ensures i + 1 < |s.pages[p].ents| ==> s.pages[leaf].ents[e].key < s.pages[p].ents[i + 1].key
  {
    LiveIsReachable(s, g, p);
    var c, k := Child(s.pages[p], i), s.pages[leaf].ents[e].key;
    assert KidOk(s, g, p, i, NO_PAGE);
    var path :| Descends(s, c, path) && path[|path| - 1] == leaf;
    PathLevels(s, g, {}, NO_PAGE, c, path);
    assert PageOk(s, g, leaf, {});
    assert Covers(g, leaf, k);
    PathWithin(s, g, {}, NO_PAGE, c, path, k);
    ChildWithin(s, g, {}, NO_PAGE, p, c, k);
  }

  /** The map is the union of the leaves in the tree: each of its pairs is in one of them and every
      pair of a leaf is in it. */
  lemma ContentsAreLeaves(s: Ix, g: Shape, k: Key, r: Rid)
    requires Valid(s, g)
    ensures k in g.m && g.m[k] == r <==>
            exists leaf, i {:trigger InLeaf(s, leaf, i)} ::
                Under(s, s.root, leaf) && InLeaf(s, leaf, i) && s.pages[leaf].ents[i] == Entry(k, r)
  {
    if k in g.m && g.m[k] == r {
      var leaf := LeafFor(s, g, s.root, k);
      LiveIsReachable(s, g, leaf);
      assert LeafOk(s, g, leaf) && PageOk(s, g, leaf, {});
      assert HasKey(s.pages[leaf].ents, k);
      var i :| 0 <= i < |s.pages[leaf].ents| && s.pages[leaf].ents[i].key == k;
      assert InLeaf(s, leaf, i);
    }
    if exists leaf, i :: Under(s, s.root, leaf) && InLeaf(s, leaf, i) && s.pages[leaf].ents[i] == Entry(k, r) {
      var leaf, i :| Under(s, s.root, leaf) && InLeaf(s, leaf, i) && s.pages[leaf].ents[i] == Entry(k, r);
      LiveIsReachable(s, g, leaf);
      assert PageOk(s, g, leaf, {}) && LeafOk(s, g, leaf);
    }
  }

  ghost predicate InLeaf(s: Ix, leaf: int, i: int) {
    leaf in s.pages && s.pages[leaf].isLeaf && 0 <= i < |s.pages[leaf].ents|
  }

  /** Some leaf below `p` covers each key `p` covers. */
  lemma {:induction false} LeafFor(s: Ix, g: Shape, p: int, k: Key) returns (leaf: int)
    requires Valid(s, g) && p in g.info && (p == s.root || Covers(g, p, k))
    ensures leaf in g.info && g.info[leaf].level == 0 && Covers(g, leaf, k)
    decreases g.info[p].level
  {
    assert PageOk(s, g, p, {}) && UpOk(s, g, p);
    if g.info[p].level == 0 { return p; }
    var ents := s.pages[p].ents;
    var i := 0;
    while i + 1 < |ents| && ents[i + 1].key <= k
      invariant 0 <= i < |ents|
      invariant i > 0 ==> ents[i].key <= k
    {
      i := i + 1;
    }
    assert KidOk(s, g, p, i, NO_PAGE);
    leaf := LeafFor(s, g, Child(s.pages[p], i), k);
  }

  // ---------------------------------------------------------------- the leaf chain

  /** The pages the next links lead through from the header page and back to it, and the prev links
      in the opposite direction. */
  ghost predicate LeafList(s: Ix, list: seq<int>) {
    && |list| > 0 && LEAF_HEADER_PAGE in s.pages
    && s.pages[LEAF_HEADER_PAGE].next == list[0] && s.pages[LEAF_HEADER_PAGE].prev == list[|list| - 1]
    && (forall i {:trigger list[i]} :: 0 <= i < |list| ==>
          && list[i] in s.pages
          && s.pages[list[i]].next == (if i + 1 < |list| then list[i + 1] else LEAF_HEADER_PAGE)
          && s.pages[list[i]].prev == (if i > 0 then list[i - 1] else LEAF_HEADER_PAGE))
  }

  /** The chain visits exactly the leaves of the tree, each once and in key order, both ways; page 2
      is always the first and the header fields name the ends. */
  lemma LeafChain(s: Ix, g: Shape) returns (list: seq<int>)
    requires Valid(s, g)
    ensures LeafList(s, list)
    ensures list[0] == s.firstLeaf == INIT_ROOT_PAGE && list[|list| - 1] == s.lastLeaf
    ensures forall p {:trigger p in list} :: p in list <==> Under(s, s.root, p) && p in s.pages && s.pages[p].isLeaf
    ensures forall i, j, a, b {:trigger s.pages[list[i]].ents[a], s.pages[list[j]].ents[b]} ::
              0 <= i < j < |list| && 0 <= a < |s.pages[list[i]].ents| && 0 <= b < |s.pages[list[j]].ents| ==>
              s.pages[list[i]].ents[a].key < s.pages[list[j]].ents[b].key
  {
    list := g.chain;
    forall i | 0 <= i < |list|
      ensures && list[i] in s.pages
              && s.pages[list[i]].next == (if i + 1 < |list| then list[i + 1] else LEAF_HEADER_PAGE)
              && s.pages[list[i]].prev == (if i > 0 then list[i - 1] else LEAF_HEADER_PAGE)
    {
      assert LinkOk(s, g, i);
    }
    forall p ensures p in list <==> Under(s, s.root, p) && p in s.pages && s.pages[p].isLeaf {
      LiveIsReachable(s, g, p);
      if p in list {
        var i :| 0 <= i < |list| && list[i] == p;
        assert LinkOk(s, g, i) && PageOk(s, g, p, {});
      }
      if p in g.info { assert PageOk(s, g, p, {}); }
    }
    forall i, j, a, b | 0 <= i < j < |list| && 0 <= a < |s.pages[list[i]].ents| && 0 <= b < |s.pages[list[j]].ents|
      ensures s.pages[list[i]].ents[a].key < s.pages[list[j]].ents[b].key
    {
      LeavesAscend(s, g, i, j, a, b);
    }
  }

  lemma LeavesAscend(s: Ix, g: Shape, i: int, j: int, a: int, b: int)
    requires Valid(s, g) && 0 <= i < j < |g.chain| && g.chain[i] in s.pages && g.chain[j] in s.pages
    requires 0 <= a < |s.pages[g.chain[i]].ents| && 0 <= b < |s.pages[g.chain[j]].ents|
    ensures s.pages[g.chain[i]].ents[a].key < s.pages[g.chain[j]].ents[b].key
  {
    assert LinkOk(s, g, i) && LinkOk(s, g, i + 1) && LinkOk(s, g, j);
    assert PageOk(s, g, g.chain[i], {}) && PageOk(s, g, g.chain[j], {});
    if i + 1 < j { ChainLoUp(s, g, i + 1, j); }
    var ea, eb := s.pages[g.chain[i]].ents, s.pages[g.chain[j]].ents;
    assert Above(g.info[g.chain[i]].hi, ea[a].key) && Below(g.info[g.chain[j]].lo, eb[b].key);
  }
}
