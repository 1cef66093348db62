/** The page heap of the unique B+ tree index and the invariant every operation keeps.

    Pages live in a heap `map<int, Page>`; the file header is the rest of `Ix`. A `Shape` is
    the ghost description of the tree the pages form: for every live page its level, its slot
    in its parent and the half-open key interval it answers for, and beside it the leaf chain,
    the free list and the map the tree stands for. The invariant is a conjunction of facts each
    about one page or one parent/child pair, so an operation only has to re-establish them
    around the pages it writes. */
module IxModel {

  const NO_PAGE: int := -1
  const LEAF_HEADER_PAGE: int := 1
  const INIT_ROOT_PAGE: int := 2
  const INIT_NUM_PAGES: int := 3

  type Key = int

  datatype Rid = Rid(pageNo: int, slotNo: int)

  datatype Entry = Entry(key: Key, rid: Rid)

  /** One index page: header fields and the `num_key` leading (key, rid) pairs. In an internal
      page the rid of slot `i` names the i-th child page. */
  datatype Page = Page(nextFree: int, parent: int, isLeaf: bool, prev: int, next: int, ents: seq<Entry>)

  /** All pages of the index file together with the dynamic file header. */
  datatype Ix = Ix(pages: map<int, Page>, root: int, firstFree: int, numPages: int,
                   firstLeaf: int, lastLeaf: int, order: int)

  function MaxSize(s: Ix): int { s.order + 1 }

  function MinSize(s: Ix): int { MaxSize(s) / 2 }

  function Child(pg: Page, i: int): int
    requires 0 <= i < |pg.ents|
  {
    pg.ents[i].rid.pageNo
  }

  /** Interval ends: a page answers for the keys k with lo <= k < hi. */
  datatype Bound = NegInf | At(key: Key) | PosInf

  predicate Below(b: Bound, k: Key) {
    match b
    case NegInf => true
    case At(a) => a <= k
    case PosInf => false
  }

  predicate Above(b: Bound, k: Key) {
    match b
    case NegInf => false
    case At(a) => k < a
    case PosInf => true
  }

  predicate Lt(a: Bound, b: Bound) {
    match (a, b)
    case (_, NegInf) => false
    case (PosInf, _) => false
    case (NegInf, _) => true
    case (At(_), PosInf) => true
    case (At(x), At(y)) => x < y
  }

  datatype Info = Info(level: nat, idx: nat, lo: Bound, hi: Bound)

  /** The internal page holding a separator key in a slot other than 0, and its level. */
  datatype Sep = Sep(page: int, level: nat)

  /** `own` says where each separator key sits; `held` are pages taken from the free list and not linked
      into the tree yet. */
  datatype Shape = Shape(info: map<int, Info>, own: map<Key, Sep>, chain: seq<int>, free: seq<int>,
                         held: set<int>, m: map<Key, Rid>)

  ghost predicate Sorted(ents: seq<Entry>, start: int) {
    forall i, j {:trigger ents[i], ents[j]} :: 0 <= start <= i < j < |ents| ==> ents[i].key < ents[j].key
  }

  ghost predicate Within(ents: seq<Entry>, start: int, lo: Bound, hi: Bound) {
    forall i {:trigger ents[i]} :: 0 <= start <= i < |ents| ==> Below(lo, ents[i].key) && Above(hi, ents[i].key)
  }

  ghost predicate HasKey(ents: seq<Entry>, k: Key) {
    exists i {:trigger ents[i]} :: 0 <= i < |ents| && ents[i].key == k
  }

  ghost predicate Covers(g: Shape, p: int, k: Key) {
    p in g.info && Below(g.info[p].lo, k) && Above(g.info[p].hi, k)
  }

  // ---------------------------------------------------------------- one page

  ghost predicate SizeOk(s: Ix, p: int)
    requires p in s.pages
  {
    var n := |s.pages[p].ents|;
    && n < MaxSize(s)
    && (p != s.root ==> MinSize(s) <= n)
    && (p == s.root && !s.pages[p].isLeaf ==> 2 <= n)
  }

  /** Slot 0 of an internal page is left out of sortedness and of the bounds: inserts never
      refresh it on the leftmost spine, so it may hold any key. */
  ghost predicate PageOk(s: Ix, g: Shape, p: int, x: set<int>) {
    && p in s.pages && p in g.info && s.root in g.info
    && INIT_ROOT_PAGE <= p < s.numPages
    && var pg, f := s.pages[p], g.info[p];
    && (pg.isLeaf <==> f.level == 0)
    && f.level <= g.info[s.root].level
    && Lt(f.lo, f.hi)
    && |pg.ents| <= MaxSize(s)
    && (!pg.isLeaf ==> 1 <= |pg.ents|)
    && (p !in x ==> SizeOk(s, p))
    && Sorted(pg.ents, if pg.isLeaf then 0 else 1)
    && Within(pg.ents, if pg.isLeaf then 0 else 1, f.lo, f.hi)
    && (!pg.isLeaf ==> forall i {:trigger pg.ents[i]} :: 1 <= i < |pg.ents| ==> f.lo != At(pg.ents[i].key))
  }

  ghost predicate PagesOk(s: Ix, g: Shape, x: set<int>) {
    forall p {:trigger PageOk(s, g, p, x)} :: p in g.info ==> PageOk(s, g, p, x)
  }

  // ---------------------------------------------------------------- parent and child

  ghost predicate UpOk(s: Ix, g: Shape, p: int) {
    && p in s.pages && p in g.info
    && var pg, f := s.pages[p], g.info[p];
    if p == s.root then
      pg.parent == NO_PAGE && f.lo == NegInf && f.hi == PosInf
    else
      && pg.parent in s.pages && pg.parent in g.info
      && var q := s.pages[pg.parent];
      && !q.isLeaf
      && g.info[pg.parent].level == f.level + 1
      && f.idx < |q.ents| && Child(q, f.idx) == p
  }

  ghost predicate UpsOk(s: Ix, g: Shape) {
    && s.root in g.info
    && forall p {:trigger UpOk(s, g, p)} :: p in g.info ==> UpOk(s, g, p)
  }

  ghost predicate IsSlot(s: Ix, g: Shape, p: int, i: int) {
    p in s.pages && p in g.info && !s.pages[p].isLeaf && 0 <= i < |s.pages[p].ents|
  }

  /** Slot `i` of internal page `p`: the child points back, sits one level lower and its interval
      runs from this slot's key (slot 0: the page's own lower end) to the next slot's key. An
      internal child repeats the slot's key in its own slot 0, unless it is the page `y` whose
      refresh is still on its way up. */
  ghost predicate KidOk(s: Ix, g: Shape, p: int, i: int, y: int) {
    && IsSlot(s, g, p, i)
    && var pg, f := s.pages[p], g.info[p];
    && var c := Child(pg, i);
    && c in s.pages && c in g.info && c != s.root
    && s.pages[c].parent == p
    && g.info[c].idx == i
    && g.info[c].level + 1 == f.level
    && g.info[c].lo == (if i == 0 then f.lo else At(pg.ents[i].key))
    && g.info[c].hi == (if i + 1 < |pg.ents| then At(pg.ents[i + 1].key) else f.hi)
    && (!s.pages[c].isLeaf && c != y ==> |s.pages[c].ents| > 0 && s.pages[c].ents[0].key == pg.ents[i].key)
  }

  ghost predicate KidsOk(s: Ix, g: Shape, y: int) {
    forall p, i {:trigger KidOk(s, g, p, i, y)} :: IsSlot(s, g, p, i) ==> KidOk(s, g, p, i, y)
  }

  // ---------------------------------------------------------------- separators

  ghost predicate OwnAt(s: Ix, g: Shape, p: int, i: int) {
    IsSlot(s, g, p, i) && s.pages[p].ents[i].key in g.own && g.own[s.pages[p].ents[i].key] == Sep(p, g.info[p].level)
  }

  ghost predicate Outside(g: Shape, a: Key, p: int) {
    p in g.info && !(Lt(g.info[p].lo, At(a)) && Lt(At(a), g.info[p].hi))
  }

  /** A finite interval end of `p` is a separator in a page above `p`. */
  ghost predicate Fenced(g: Shape, p: int) {
    && p in g.info
    && (forall k {:trigger At(k)} :: g.info[p].lo == At(k) || g.info[p].hi == At(k) ==>
          k in g.own && g.info[p].level < g.own[k].level)
  }

  /** A separator key sits in one internal page only, never strictly inside a leaf's interval, and
      the interval ends of a page are separators further up. */
  ghost predicate OwnOk(s: Ix, g: Shape) {
    && (forall p, i {:trigger OwnAt(s, g, p, i)} :: IsSlot(s, g, p, i) && 1 <= i ==> OwnAt(s, g, p, i))
    && (forall a, p {:trigger Outside(g, a, p)} :: a in g.own && p in g.info && g.info[p].level == 0 ==>
        Outside(g, a, p))
    && (forall p {:trigger Fenced(g, p)} :: p in g.info ==> Fenced(g, p))
  }

  // ---------------------------------------------------------------- leaf chain

  ghost predicate LinkOk(s: Ix, g: Shape, i: int) {
    && 0 <= i < |g.chain|
    && var p := g.chain[i];
    && p in g.info && p in s.pages && g.info[p].level == 0
    && s.pages[p].next == (if i + 1 < |g.chain| then g.chain[i + 1] else LEAF_HEADER_PAGE)
    && s.pages[p].prev == (if i == 0 then LEAF_HEADER_PAGE else g.chain[i - 1])
    && (i == 0 ==> g.info[p].lo == NegInf)
    && (i + 1 < |g.chain| ==> g.chain[i + 1] in g.info && g.info[p].hi == g.info[g.chain[i + 1]].lo)
    && (i + 1 == |g.chain| ==> g.info[p].hi == PosInf)
  }

  ghost predicate ChainUp(g: Shape, i: int, j: int) {
    && 0 <= i < j < |g.chain|
    && g.chain[i] in g.info && g.chain[j] in g.info
    && Lt(g.info[g.chain[i]].lo, g.info[g.chain[j]].lo)
  }

  ghost predicate ChainOk(s: Ix, g: Shape) {
    && |g.chain| > 0
    && g.chain[0] == s.firstLeaf == INIT_ROOT_PAGE
    && g.chain[|g.chain| - 1] == s.lastLeaf
    && LEAF_HEADER_PAGE in s.pages
    && s.pages[LEAF_HEADER_PAGE].isLeaf && s.pages[LEAF_HEADER_PAGE].ents == []
    && s.pages[LEAF_HEADER_PAGE].next == s.firstLeaf
    && s.pages[LEAF_HEADER_PAGE].prev == s.lastLeaf
    && (forall i {:trigger LinkOk(s, g, i)} :: 0 <= i < |g.chain| ==> LinkOk(s, g, i))
    && (forall i, j {:trigger ChainUp(g, i, j)} :: 0 <= i < j < |g.chain| ==> ChainUp(g, i, j))
    && (forall p {:trigger p in g.chain} :: p in g.info && g.info[p].level == 0 ==> p in g.chain)
  }

  // ---------------------------------------------------------------- contents

  ghost predicate LeafOk(s: Ix, g: Shape, p: int) {
    && p in s.pages && p in g.info
    && var ents := s.pages[p].ents;
    && (forall i {:trigger ents[i]} :: 0 <= i < |ents| ==> ents[i].key in g.m && g.m[ents[i].key] == ents[i].rid)
    && (forall k {:trigger k in g.m} {:trigger HasKey(ents, k)} :: k in g.m && Covers(g, p, k) ==> HasKey(ents, k))
  }

  ghost predicate LeavesOk(s: Ix, g: Shape) {
    forall p {:trigger LeafOk(s, g, p)} :: p in g.info && g.info[p].level == 0 ==> LeafOk(s, g, p)
  }

  // ---------------------------------------------------------------- page accounting

  ghost predicate FreeLink(s: Ix, g: Shape, i: int) {
    && 0 <= i < |g.free|
    && g.free[i] in s.pages
    && s.pages[g.free[i]].nextFree == (if i + 1 < |g.free| then g.free[i + 1] else NO_PAGE)
  }

  ghost predicate Placed(s: Ix, g: Shape, p: int) {
    && (INIT_ROOT_PAGE <= p < s.numPages <==> p in g.info || p in g.held || p in g.free)
    && (p in g.held || p in g.free ==> p !in g.info)
    && (p in g.held ==> p !in g.free)
    && (p in s.pages <==> LEAF_HEADER_PAGE <= p < s.numPages)
  }

  /** Pages 2 .. numPages-1 are the disjoint union of the live pages, the pages in hand and the
      free list, and the free list is threaded through the pages without repetition. */
  ghost predicate FreeOk(s: Ix, g: Shape) {
    && INIT_NUM_PAGES <= s.numPages
    && s.firstFree == (if |g.free| > 0 then g.free[0] else NO_PAGE)
    && (forall i {:trigger FreeLink(s, g, i)} :: 0 <= i < |g.free| ==> FreeLink(s, g, i))
    && (forall i, j {:trigger g.free[i], g.free[j]} :: 0 <= i < j < |g.free| ==> g.free[i] != g.free[j])
    && (forall p {:trigger Placed(s, g, p)} :: Placed(s, g, p))
  }

  ghost predicate Inv(s: Ix, g: Shape, x: set<int>, y: int) {
    && s.order > 2
    && PagesOk(s, g, x)
    && UpsOk(s, g)
    && KidsOk(s, g, y)
    && OwnOk(s, g)
    && ChainOk(s, g)
    && LeavesOk(s, g)
    && FreeOk(s, g)
  }

  /** A well-formed index at rest: nothing exempt, no page in hand. */
  ghost predicate Valid(s: Ix, g: Shape) {
    Inv(s, g, {}, NO_PAGE) && g.held == {}
  }
}
