/** The elementary page-heap steps the index operations are made of, each with the proof that it
    keeps the invariant: allocation, release, writing one leaf, growing and collapsing the root. */
module IxSteps {
  import opened IxModel

  function InsertAt(ents: seq<Entry>, pos: nat, e: Entry): seq<Entry>
    requires pos <= |ents|
  {
    ents[..pos] + [e] + ents[pos..]
  }

  function RemoveAt(ents: seq<Entry>, pos: nat): seq<Entry>
    requires pos < |ents|
  {
    ents[..pos] + ents[pos + 1..]
  }

  function SetEnts(s: Ix, p: int, ents: seq<Entry>): Ix
    requires p in s.pages
  {
    s.(pages := s.pages[p := s.pages[p].(ents := ents)])
  }

  predicate Names(kids: seq<Entry>, c: int) {
    exists i {:trigger kids[i]} :: 0 <= i < |kids| && kids[i].rid.pageNo == c
  }

  /** `maintain_child` over the slots `kids`: every child named there gets parent `n`. */
  function Reparent(pages: map<int, Page>, kids: seq<Entry>, n: int): map<int, Page> {
    map c | c in pages :: if Names(kids, c) then pages[c].(parent := n) else pages[c]
  }

  // ---------------------------------------------------------------- exemptions

  lemma DropExempt(s: Ix, g: Shape, x: set<int>, y: int, p: int)
    requires Inv(s, g, x, y)
    requires p in g.info && p in s.pages && SizeOk(s, p)
    ensures Inv(s, g, x - {p}, y)
  {
    forall q | q in g.info ensures PageOk(s, g, q, x - {p}) {
      assert PageOk(s, g, q, x);
    }
  }

  // ---------------------------------------------------------------- writing one leaf

  ghost predicate LeafWritable(s: Ix, g: Shape, p: int, ents: seq<Entry>, m: map<Key, Rid>) {
    && p in s.pages && p in g.info && g.info[p].level == 0
    && |ents| <= MaxSize(s)
    && Sorted(ents, 0)
    && Within(ents, 0, g.info[p].lo, g.info[p].hi)
    && (forall i {:trigger ents[i]} :: 0 <= i < |ents| ==> ents[i].key in m && m[ents[i].key] == ents[i].rid)
    && (forall k {:trigger k in m} :: k in m && Covers(g, p, k) ==> HasKey(ents, k))
    && (forall k {:trigger k in m} {:trigger k in g.m} :: !Covers(g, p, k) ==>
          (k in m <==> k in g.m) && (k in m ==> m[k] == g.m[k]))
  }

  /** No key is covered by two leaves. */
  lemma LeafUnique(s: Ix, g: Shape, p: int, q: int, k: Key)
    requires ChainOk(s, g)
    requires p in g.info && g.info[p].level == 0 && Covers(g, p, k)
    requires q in g.info && g.info[q].level == 0 && Covers(g, q, k)
    ensures p == q
  {
    assert p in g.chain && q in g.chain;
    var i :| 0 <= i < |g.chain| && g.chain[i] == p;
    var j :| 0 <= j < |g.chain| && g.chain[j] == q;
    if i < j { LeafBefore(s, g, i, j, k); }
    if j < i { LeafBefore(s, g, j, i, k); }
  }

  /** Lower ends rise along the leaf chain. */
  lemma ChainLoUp(s: Ix, g: Shape, i: int, j: int)
    requires ChainOk(s, g) && 0 <= i < j < |g.chain|
    ensures g.chain[i] in g.info && g.chain[j] in g.info
    ensures Lt(g.info[g.chain[i]].lo, g.info[g.chain[j]].lo)
  {
    assert ChainUp(g, i, j);
  }

  lemma OutsideOf(s: Ix, g: Shape, a: Key, p: int)
    requires OwnOk(s, g) && a in g.own && p in g.info && g.info[p].level == 0
    ensures !(Lt(g.info[p].lo, At(a)) && Lt(At(a), g.info[p].hi))
  {
    assert Outside(g, a, p);
  }

  /** At the level below a separator only the two children beside it end there. */
  lemma SepBounds(s: Ix, g: Shape, y: int, q: int, i: int, u: int)
    requires UpsOk(s, g) && KidsOk(s, g, y) && OwnOk(s, g)
    requires IsSlot(s, g, q, i) && 1 <= i && Sorted(s.pages[q].ents, 1)
    requires u in g.info && g.info[u].level + 1 == g.info[q].level
    ensures g.info[u].lo == At(s.pages[q].ents[i].key) ==> u == Child(s.pages[q], i)
    ensures g.info[u].hi == At(s.pages[q].ents[i].key) ==> u == Child(s.pages[q], i - 1)
  {
    var a := s.pages[q].ents[i].key;
    assert OwnAt(s, g, q, i) && UpOk(s, g, u);
    if u != s.root {
      var w, d := s.pages[u].parent, g.info[u].idx;
      assert KidOk(s, g, w, d, y) && Fenced(g, w);
      if g.info[u].lo == At(a) && d > 0 { assert OwnAt(s, g, w, d); }
      if g.info[u].hi == At(a) && d + 1 < |s.pages[w].ents| { assert OwnAt(s, g, w, d + 1); }
    }
  }

  lemma LeafBefore(s: Ix, g: Shape, i: int, j: int, k: Key)
    requires ChainOk(s, g)
    requires 0 <= i < j < |g.chain|
    ensures !(Covers(g, g.chain[i], k) && Covers(g, g.chain[j], k))
  {
    assert LinkOk(s, g, i) && LinkOk(s, g, i + 1) && LinkOk(s, g, j);
    if i + 1 < j {
      assert ChainUp(g, i + 1, j);
    }
  }

  lemma LeafWrite(s: Ix, g: Shape, x: set<int>, y: int, p: int, ents: seq<Entry>, m: map<Key, Rid>)
    requires Inv(s, g, x, y)
    requires LeafWritable(s, g, p, ents, m)
    ensures Inv(SetEnts(s, p, ents), g.(m := m), x + {p}, y)
  {
    var s', g' := SetEnts(s, p, ents), g.(m := m);
    LeafWriteTree(s, g, x, y, p, ents, m);
    LeafWriteOwn(s, g, x, y, p, ents, m);
    LeafWriteChain(s, g, x, y, p, ents, m);
    forall q | q in g'.info && g'.info[q].level == 0 ensures LeafOk(s', g', q) {
      if q != p {
        LeafWriteOther(s, g, x, y, p, ents, m, q);
      } else {
        LeafWriteHere(s, g, p, ents, m);
      }
    }
    LeafWriteFree(s, g, x, y, p, ents, m);
  }

  lemma LeafWriteHere(s: Ix, g: Shape, p: int, ents: seq<Entry>, m: map<Key, Rid>)
    requires LeafWritable(s, g, p, ents, m)
    ensures LeafOk(SetEnts(s, p, ents), g.(m := m), p)
  {
    forall k | k in m && Covers(g.(m := m), p, k) ensures HasKey(ents, k) {
      assert Covers(g, p, k);
    }
  }

  lemma LeafWriteTree(s: Ix, g: Shape, x: set<int>, y: int, p: int, ents: seq<Entry>, m: map<Key, Rid>)
    requires PagesOk(s, g, x) && UpsOk(s, g) && KidsOk(s, g, y) && LeafWritable(s, g, p, ents, m)
    ensures PagesOk(SetEnts(s, p, ents), g.(m := m), x + {p}) && UpsOk(SetEnts(s, p, ents), g.(m := m))
    ensures KidsOk(SetEnts(s, p, ents), g.(m := m), y)
  {
    var s', g' := SetEnts(s, p, ents), g.(m := m);
    assert PageOk(s, g, p, x);
    forall q | q in g'.info ensures PageOk(s', g', q, x + {p}) {
      assert PageOk(s, g, q, x);
    }
    forall q | q in g'.info ensures UpOk(s', g', q) {
      assert UpOk(s, g, q);
    }
    forall q, i | IsSlot(s', g', q, i) ensures KidOk(s', g', q, i, y) {
      assert KidOk(s, g, q, i, y);
      assert PageOk(s, g, Child(s.pages[q], i), x);
    }
  }

  lemma LeafWriteOwn(s: Ix, g: Shape, x: set<int>, y: int, p: int, ents: seq<Entry>, m: map<Key, Rid>)
    requires PagesOk(s, g, x) && OwnOk(s, g) && LeafWritable(s, g, p, ents, m)
    ensures OwnOk(SetEnts(s, p, ents), g.(m := m))
  {
    var s', g' := SetEnts(s, p, ents), g.(m := m);
    assert PageOk(s, g, p, x);
    forall q, i | IsSlot(s', g', q, i) && 1 <= i ensures OwnAt(s', g', q, i) {
      assert OwnAt(s, g, q, i);
    }
    forall a, q | a in g'.own && q in g'.info && g'.info[q].level == 0 ensures Outside(g', a, q) {
      assert Outside(g, a, q);
    }
    forall q | q in g'.info ensures Fenced(g', q) { assert Fenced(g, q); }
  }

  lemma LeafWriteFree(s: Ix, g: Shape, x: set<int>, y: int, p: int, ents: seq<Entry>, m: map<Key, Rid>)
    requires FreeOk(s, g) && LeafWritable(s, g, p, ents, m)
    ensures FreeOk(SetEnts(s, p, ents), g.(m := m))
  {
    var s', g' := SetEnts(s, p, ents), g.(m := m);
    forall i | 0 <= i < |g'.free| ensures FreeLink(s', g', i) {
      assert FreeLink(s, g, i);
      assert Placed(s, g, g.free[i]);
    }
    forall q ensures Placed(s', g', q) {
      assert Placed(s, g, q) && Placed(s, g, p);
    }
  }

  lemma LeafWriteChain(s: Ix, g: Shape, x: set<int>, y: int, p: int, ents: seq<Entry>, m: map<Key, Rid>)
    requires Inv(s, g, x, y)
    requires LeafWritable(s, g, p, ents, m)
    ensures ChainOk(SetEnts(s, p, ents), g.(m := m))
  {
    var s', g' := SetEnts(s, p, ents), g.(m := m);
    assert Placed(s, g, p) && Placed(s, g, LEAF_HEADER_PAGE);
    forall i | 0 <= i < |g'.chain| ensures LinkOk(s', g', i) {
      assert LinkOk(s, g, i);
    }
    forall i, j | 0 <= i < j < |g'.chain| ensures ChainUp(g', i, j) {
      assert ChainUp(g, i, j);
    }
  }

  lemma LeafWriteOther(s: Ix, g: Shape, x: set<int>, y: int, p: int, ents: seq<Entry>, m: map<Key, Rid>, q: int)
    requires Inv(s, g, x, y)
    requires LeafWritable(s, g, p, ents, m)
    requires q in g.info && g.info[q].level == 0 && q != p
    ensures LeafOk(SetEnts(s, p, ents), g.(m := m), q)
  {
    assert LeafOk(s, g, q) && PageOk(s, g, q, x);
    var es := s.pages[q].ents;
    forall i | 0 <= i < |es| ensures es[i].key in m && m[es[i].key] == es[i].rid {
      assert Covers(g, q, es[i].key);
      if Covers(g, p, es[i].key) { LeafUnique(s, g, p, q, es[i].key); }
    }
    forall k | k in m && Covers(g.(m := m), q, k) ensures HasKey(es, k) {
      assert Covers(g, q, k);
      if Covers(g, p, k) { LeafUnique(s, g, p, q, k); }
      assert k in g.m;
    }
  }

  // ---------------------------------------------------------------- create_node, release_node_handle

  function AllocNo(s: Ix): int {
    if s.firstFree != NO_PAGE then s.firstFree else s.numPages
  }

  /** Pops the free list, or extends the file by a page with whatever bytes `junk` it comes with. */
  function Alloc(s: Ix, junk: Page): Ix {
    if s.firstFree != NO_PAGE then
      if s.firstFree in s.pages then s.(firstFree := s.pages[s.firstFree].nextFree) else s
    else
      s.(numPages := s.numPages + 1, pages := s.pages[s.numPages := junk])
  }

  ghost function AllocShape(s: Ix, g: Shape): Shape {
    g.(held := g.held + {AllocNo(s)}, free := if |g.free| > 0 then g.free[1..] else g.free)
  }

  /** No live page is ever handed out, and the invariant survives. */
  lemma AllocKeeps(s: Ix, g: Shape, x: set<int>, y: int, junk: Page)
    requires Inv(s, g, x, y)
    ensures Inv(Alloc(s, junk), AllocShape(s, g), x, y)
    ensures AllocNo(s) !in g.info && AllocNo(s) !in g.held
    ensures AllocNo(s) in Alloc(s, junk).pages
    ensures INIT_ROOT_PAGE <= AllocNo(s)
  {
    var s', g', n := Alloc(s, junk), AllocShape(s, g), AllocNo(s);
    assert Placed(s, g, n);
    if |g.free| > 0 {
      assert FreeLink(s, g, 0);
      assert g.free[0] in g.free && Placed(s, g, g.free[0]);
      assert g.free == [n] + g.free[1..];
    }
    FrameUnlinked(s, g, x, y, s', g', n);
    forall i | 0 <= i < |g'.free| ensures FreeLink(s', g', i) {
      assert FreeLink(s, g, i + 1);
    }
    forall q ensures Placed(s', g', q) {
      assert Placed(s, g, q);
      if |g.free| > 0 {
        assert q in g.free <==> q == n || q in g.free[1..];
      }
    }
  }

  function Release(s: Ix, p: int): Ix
    requires p in s.pages
  {
    s.(pages := s.pages[p := s.pages[p].(nextFree := s.firstFree)], firstFree := p)
  }

  ghost function ReleaseShape(g: Shape, p: int): Shape {
    g.(held := g.held - {p}, free := [p] + g.free)
  }

  lemma ReleaseKeeps(s: Ix, g: Shape, x: set<int>, y: int, p: int)
    requires Inv(s, g, x, y)
    requires p in g.held && p in s.pages
    ensures Inv(Release(s, p), ReleaseShape(g, p), x, y)
  {
    var s', g' := Release(s, p), ReleaseShape(g, p);
    assert Placed(s, g, p);
    FrameUnlinked(s, g, x, y, s', g', p);
    forall i | 0 <= i < |g'.free| ensures FreeLink(s', g', i) {
      if i > 0 {
        assert FreeLink(s, g, i - 1);
        assert g.free[i - 1] != p;
      }
    }
    forall q ensures Placed(s', g', q) {
      assert Placed(s, g, q);
      assert q in g'.free <==> q == p || q in g.free;
    }
  }

  /** Steps that only touch a page outside the tree keep everything but the page accounting. */
  lemma FrameUnlinked(s: Ix, g: Shape, x: set<int>, y: int, s': Ix, g': Shape, n: int)
    requires Inv(s, g, x, y)
    requires n !in g.info && n != LEAF_HEADER_PAGE
    requires s' == s.(pages := s'.pages, numPages := s'.numPages, firstFree := s'.firstFree)
    requires s.numPages <= s'.numPages
    requires g' == g.(held := g'.held, free := g'.free)
    requires forall p :: p in s.pages && p != n ==> p in s'.pages && s'.pages[p] == s.pages[p]
    ensures PagesOk(s', g', x) && UpsOk(s', g') && KidsOk(s', g', y)
    ensures OwnOk(s', g') && ChainOk(s', g') && LeavesOk(s', g')
  {
    forall q | q in g'.info ensures PageOk(s', g', q, x) && UpOk(s', g', q) {
      assert PageOk(s, g, q, x) && UpOk(s, g, q);
    }
    forall q, i | IsSlot(s', g', q, i) ensures KidOk(s', g', q, i, y) {
      assert PageOk(s, g, q, x);
      assert KidOk(s, g, q, i, y);
    }
    forall q, i | IsSlot(s', g', q, i) && 1 <= i ensures OwnAt(s', g', q, i) {
      assert PageOk(s, g, q, x);
      assert OwnAt(s, g, q, i);
    }
    forall a, q | a in g'.own && q in g'.info && g'.info[q].level == 0 ensures Outside(g', a, q) {
      assert Outside(g, a, q);
    }
    forall q | q in g'.info ensures Fenced(g', q) { assert Fenced(g, q); }
    forall i | 0 <= i < |g'.chain| ensures LinkOk(s', g', i) {
      assert LinkOk(s, g, i);
    }
    forall i, j | 0 <= i < j < |g'.chain| ensures ChainUp(g', i, j) {
      assert ChainUp(g, i, j);
    }
    forall q | q in g'.info && g'.info[q].level == 0 ensures LeafOk(s', g', q) {
      assert LeafOk(s, g, q);
      forall k | k in g'.m && Covers(g', q, k) ensures HasKey(s'.pages[q].ents, k) {
        assert Covers(g, q, k);
      }
    }
  }

  // ---------------------------------------------------------------- steps above the leaves

  ghost predicate SameLeaf(s: Ix, g: Shape, s': Ix, g': Shape, p: int) {
    && p in g.info && p in g'.info && p in s.pages && p in s'.pages
    && g'.info[p].level == g.info[p].level == 0
    && g'.info[p].lo == g.info[p].lo && g'.info[p].hi == g.info[p].hi
    && s'.pages[p].(parent := NO_PAGE) == s.pages[p].(parent := NO_PAGE)
  }

  /** The step leaves the leaf level alone, up to the leaves' parent fields. */
  ghost predicate LeafFrame(s: Ix, g: Shape, s': Ix, g': Shape) {
    && g'.chain == g.chain && g'.m == g.m
    && s'.firstLeaf == s.firstLeaf && s'.lastLeaf == s.lastLeaf
    && LEAF_HEADER_PAGE in s.pages && LEAF_HEADER_PAGE in s'.pages
    && s'.pages[LEAF_HEADER_PAGE] == s.pages[LEAF_HEADER_PAGE]
    && (forall p {:trigger SameLeaf(s, g, s', g', p)} :: p in g.info && g.info[p].level == 0 ==>
        SameLeaf(s, g, s', g', p))
    && (forall p {:trigger SameLeaf(s, g, s', g', p)} :: p in g'.info && g'.info[p].level == 0 ==>
        SameLeaf(s, g, s', g', p))
  }

  lemma LeafFrameKeeps(s: Ix, g: Shape, s': Ix, g': Shape)
    requires LeafFrame(s, g, s', g')
    requires ChainOk(s, g) && LeavesOk(s, g)
    ensures ChainOk(s', g') && LeavesOk(s', g')
  {
    forall i | 0 <= i < |g'.chain| ensures LinkOk(s', g', i) {
      assert LinkOk(s, g, i) && SameLeaf(s, g, s', g', g.chain[i]);
      if i + 1 < |g.chain| { assert LinkOk(s, g, i + 1) && SameLeaf(s, g, s', g', g.chain[i + 1]); }
    }
    forall i, j | 0 <= i < j < |g'.chain| ensures ChainUp(g', i, j) {
      assert ChainUp(g, i, j) && LinkOk(s, g, i) && LinkOk(s, g, j);
      assert SameLeaf(s, g, s', g', g.chain[i]) && SameLeaf(s, g, s', g', g.chain[j]);
    }
    forall q | q in g'.info && g'.info[q].level == 0 ensures q in g'.chain {
      assert SameLeaf(s, g, s', g', q);
    }
    forall q | q in g'.info && g'.info[q].level == 0 ensures LeafOk(s', g', q) {
      assert SameLeaf(s, g, s', g', q);
      assert LeafOk(s, g, q);
      forall k | k in g'.m && Covers(g', q, k) ensures HasKey(s'.pages[q].ents, k) {
        assert Covers(g, q, k);
      }
    }
  }

  /** A step above the leaves may move separators between pages but invents none. */
  lemma OutsideFrame(s: Ix, g: Shape, s': Ix, g': Shape)
    requires LeafFrame(s, g, s', g') && OwnOk(s, g) && g'.own.Keys <= g.own.Keys
    ensures forall a, p {:trigger Outside(g', a, p)} :: a in g'.own && p in g'.info && g'.info[p].level == 0 ==>
              Outside(g', a, p)
  {
    forall a, p | a in g'.own && p in g'.info && g'.info[p].level == 0 ensures Outside(g', a, p) {
      assert SameLeaf(s, g, s', g', p);
      assert Outside(g, a, p);
    }
  }

  // ---------------------------------------------------------------- root growth and collapse

  /** Puts page `r` above the root as an internal page with the old root as its only child. */
  function GrowRoot(s: Ix, r: int): Ix
    requires s.root in s.pages && r in s.pages && |s.pages[s.root].ents| > 0
  {
    var p := s.root;
    s.(root := r,
       pages := s.pages[r := s.pages[r].(isLeaf := false, parent := NO_PAGE,
                                         ents := [Entry(s.pages[p].ents[0].key, Rid(p, 0))])]
                       [p := s.pages[p].(parent := r)])
  }

  ghost function GrowShape(s: Ix, g: Shape, r: int): Shape
    requires s.root in g.info
  {
    var f := g.info[s.root];
    g.(held := g.held - {r},
       info := g.info[s.root := f.(idx := 0)][r := Info(f.level + 1, 0, NegInf, PosInf)])
  }

  lemma GrowRootKeeps(s: Ix, g: Shape, x: set<int>, y: int, r: int)
    requires Inv(s, g, x, y)
    requires r in g.held && r in s.pages && s.root in s.pages && |s.pages[s.root].ents| > 0
    requires s.root in g.info
    ensures Inv(GrowRoot(s, r), GrowShape(s, g, r), x + {r, s.root}, y)
  {
    var s', g', p := GrowRoot(s, r), GrowShape(s, g, r), s.root;
    assert Placed(s, g, r) && Placed(s, g, p) && Placed(s, g, LEAF_HEADER_PAGE);
    assert PageOk(s, g, p, x) && UpOk(s, g, p);
    GrowRootLinks(s, g, x, y, r);
    forall q | q in g.info || q in g'.info ensures g'.info[q].level == 0 ==> SameLeaf(s, g, s', g', q) {
      if q != r { assert PageOk(s, g, q, x); }
    }
    LeafFrameKeeps(s, g, s', g');
    OutsideFrame(s, g, s', g');
    forall q, i | IsSlot(s', g', q, i) && 1 <= i ensures OwnAt(s', g', q, i) {
      assert OwnAt(s, g, q, i);
    }
    forall q | q in g'.info ensures Fenced(g', q) {
      if q in g.info { assert Fenced(g, q); }
    }
    forall i | 0 <= i < |g'.free| ensures FreeLink(s', g', i) {
      assert FreeLink(s, g, i);
      assert Placed(s, g, g.free[i]);
    }
    forall q ensures Placed(s', g', q) {
      assert Placed(s, g, q);
    }
  }

  lemma GrowRootLinks(s: Ix, g: Shape, x: set<int>, y: int, r: int)
    requires PagesOk(s, g, x) && UpsOk(s, g) && KidsOk(s, g, y)
    requires r !in g.info && r in s.pages && INIT_ROOT_PAGE <= r < s.numPages && s.order > 2
    requires s.root in s.pages && |s.pages[s.root].ents| > 0
    ensures PagesOk(GrowRoot(s, r), GrowShape(s, g, r), x + {r, s.root})
    ensures UpsOk(GrowRoot(s, r), GrowShape(s, g, r))
    ensures KidsOk(GrowRoot(s, r), GrowShape(s, g, r), y)
  {
    var s', g' := GrowRoot(s, r), GrowShape(s, g, r);
    forall q | q in g'.info ensures PageOk(s', g', q, x + {r, s.root}) {
      GrowRootPage(s, g, x, r, q);
    }
    forall q | q in g'.info ensures UpOk(s', g', q) {
      GrowRootUp(s, g, x, r, q);
    }
    forall q, i | IsSlot(s', g', q, i) ensures KidOk(s', g', q, i, y) {
      GrowRootKid(s, g, x, y, r, q, i);
    }
  }

  lemma GrowRootPage(s: Ix, g: Shape, x: set<int>, r: int, q: int)
    requires PagesOk(s, g, x) && UpsOk(s, g)
    requires r !in g.info && r in s.pages && INIT_ROOT_PAGE <= r < s.numPages && s.order > 2
    requires s.root in s.pages && |s.pages[s.root].ents| > 0 && q in GrowShape(s, g, r).info
    ensures PageOk(GrowRoot(s, r), GrowShape(s, g, r), q, x + {r, s.root})
  {
    assert PageOk(s, g, s.root, x) && UpOk(s, g, s.root);
    if q != r { assert PageOk(s, g, q, x); }
  }

  lemma GrowRootUp(s: Ix, g: Shape, x: set<int>, r: int, q: int)
    requires PagesOk(s, g, x) && UpsOk(s, g)
    requires r !in g.info && r in s.pages && s.root in s.pages && |s.pages[s.root].ents| > 0
             && q in GrowShape(s, g, r).info
    ensures UpOk(GrowRoot(s, r), GrowShape(s, g, r), q)
  {
    assert PageOk(s, g, s.root, x) && UpOk(s, g, s.root);
    if q != r { assert UpOk(s, g, q); }
  }

  lemma GrowRootKid(s: Ix, g: Shape, x: set<int>, y: int, r: int, q: int, i: int)
    requires PagesOk(s, g, x) && UpsOk(s, g) && KidsOk(s, g, y)
    requires r !in g.info && r in s.pages && s.root in s.pages && |s.pages[s.root].ents| > 0
    requires IsSlot(GrowRoot(s, r), GrowShape(s, g, r), q, i)
    ensures KidOk(GrowRoot(s, r), GrowShape(s, g, r), q, i, y)
  {
    assert PageOk(s, g, s.root, x) && UpOk(s, g, s.root);
    if q != r { assert KidOk(s, g, q, i, y); }
  }

  /** `adjust_root` on an internal root with a single child: the child becomes the root. */
  function CollapseRoot(s: Ix): Ix
    requires s.root in s.pages && |s.pages[s.root].ents| == 1
    requires Child(s.pages[s.root], 0) in s.pages
  {
    var c := Child(s.pages[s.root], 0);
    s.(root := c,
       pages := s.pages[s.root := s.pages[s.root].(ents := [])][c := s.pages[c].(parent := NO_PAGE)])
  }

  ghost function CollapseShape(s: Ix, g: Shape): Shape {
    g.(held := g.held + {s.root}, info := g.info - {s.root})
  }

  lemma CollapseRootKeeps(s: Ix, g: Shape, x: set<int>, y: int)
    requires Inv(s, g, x, y)
    requires s.root in s.pages && !s.pages[s.root].isLeaf && |s.pages[s.root].ents| == 1
    ensures s.root in g.info && Child(s.pages[s.root], 0) in g.info && Child(s.pages[s.root], 0) in s.pages
    ensures Child(s.pages[s.root], 0) != s.root
    ensures Inv(CollapseRoot(s), CollapseShape(s, g), x, y)
  {
    var r := s.root;
    assert PageOk(s, g, r, x) && UpOk(s, g, r) && Placed(s, g, r) && Placed(s, g, LEAF_HEADER_PAGE);
    assert KidOk(s, g, r, 0, y);
    var c := Child(s.pages[r], 0);
    assert Placed(s, g, c);
    var s', g' := CollapseRoot(s), CollapseShape(s, g);
    CollapseRootLinks(s, g, x, y);
    forall q | q in g.info && g.info[q].level == 0 ensures SameLeaf(s, g, s', g', q) {
      assert PageOk(s, g, q, x);
    }
    LeafFrameKeeps(s, g, s', g');
    OutsideFrame(s, g, s', g');
    forall q, i | IsSlot(s', g', q, i) && 1 <= i ensures OwnAt(s', g', q, i) {
      assert OwnAt(s, g, q, i);
    }
    forall q | q in g'.info ensures Fenced(g', q) {
      if q in g.info { assert Fenced(g, q); }
    }
    forall i | 0 <= i < |g'.free| ensures FreeLink(s', g', i) {
      assert FreeLink(s, g, i);
      assert Placed(s, g, g.free[i]);
    }
    forall q ensures Placed(s', g', q) {
      assert Placed(s, g, q);
    }
  }

  lemma CollapseRootLinks(s: Ix, g: Shape, x: set<int>, y: int)
    requires s.order > 2
    requires PagesOk(s, g, x) && UpsOk(s, g) && KidsOk(s, g, y)
    requires s.root in s.pages && !s.pages[s.root].isLeaf && |s.pages[s.root].ents| == 1
    requires Child(s.pages[s.root], 0) in s.pages
    ensures PagesOk(CollapseRoot(s), CollapseShape(s, g), x)
    ensures UpsOk(CollapseRoot(s), CollapseShape(s, g))
    ensures KidsOk(CollapseRoot(s), CollapseShape(s, g), y)
  {
    var s', g' := CollapseRoot(s), CollapseShape(s, g);
    assert s'.root in g'.info by {
      assert PageOk(s, g, s.root, x) && KidOk(s, g, s.root, 0, y);
    }
    forall q | q in g'.info ensures PageOk(s', g', q, x) && UpOk(s', g', q) {
      CollapseRootPage(s, g, x, y, q);
    }
    forall q, i | IsSlot(s', g', q, i) ensures KidOk(s', g', q, i, y) {
      CollapseRootKid(s, g, x, y, q, i);
    }
  }

  lemma CollapseRootPage(s: Ix, g: Shape, x: set<int>, y: int, q: int)
    requires s.order > 2
    requires PagesOk(s, g, x) && UpsOk(s, g) && KidsOk(s, g, y)
    requires s.root in s.pages && !s.pages[s.root].isLeaf && |s.pages[s.root].ents| == 1
    requires Child(s.pages[s.root], 0) in s.pages && q in g.info && q != s.root
    ensures PageOk(CollapseRoot(s), CollapseShape(s, g), q, x) && UpOk(CollapseRoot(s), CollapseShape(s, g), q)
  {
    var r := s.root;
    assert PageOk(s, g, r, x) && UpOk(s, g, r) && KidOk(s, g, r, 0, y);
    assert PageOk(s, g, q, x) && UpOk(s, g, q);
    assert PageOk(s, g, s.pages[q].parent, x);
  }

  lemma CollapseRootKid(s: Ix, g: Shape, x: set<int>, y: int, q: int, i: int)
    requires PagesOk(s, g, x) && UpsOk(s, g) && KidsOk(s, g, y)
    requires s.root in s.pages && !s.pages[s.root].isLeaf && |s.pages[s.root].ents| == 1
    requires Child(s.pages[s.root], 0) in s.pages && IsSlot(CollapseRoot(s), CollapseShape(s, g), q, i)
    ensures KidOk(CollapseRoot(s), CollapseShape(s, g), q, i, y)
  {
    assert PageOk(s, g, s.root, x) && KidOk(s, g, s.root, 0, y);
    assert KidOk(s, g, q, i, y) && PageOk(s, g, q, x);
  }
}
