/** The index handle: lookup, insert and delete on the page heap. */
module IxIndex {
  import opened IxModel
  import opened IxSteps
  import opened IxNode
  import IxSplit
  import IxRebalance
  import IxMerge
  import IxRaise
  import IxNewRoot

  // ---------------------------------------------------------------- routing

  /** One step of the descent stays with the key. */
  lemma RouteStep(s: Ix, g: Shape, x: set<int>, y: int, p: int, slot: int, k: Key)
    requires Inv(s, g, x, y) && IsSlot(s, g, p, slot) && Covers(g, p, k)
    requires slot > 0 ==> s.pages[p].ents[slot].key <= k
    requires slot + 1 < |s.pages[p].ents| ==> k < s.pages[p].ents[slot + 1].key
    ensures var c := Child(s.pages[p], slot);
            c in s.pages && Covers(g, c, k) && g.info[c].level + 1 == g.info[p].level
  {
    assert KidOk(s, g, p, slot, y);
  }

  lemma RootCovers(s: Ix, g: Shape, x: set<int>, y: int, k: Key)
    requires Inv(s, g, x, y)
    ensures s.root in s.pages && Covers(g, s.root, k)
  {
    assert UpOk(s, g, s.root);
  }

  /** In a leaf that covers `k`, the page holds `k` exactly when the map does. */
  lemma LeafAnswers(s: Ix, g: Shape, x: set<int>, y: int, p: int, k: Key, pos: int)
    requires Inv(s, g, x, y) && p in g.info && g.info[p].level == 0 && Covers(g, p, k)
    requires p in s.pages && 0 <= pos <= |s.pages[p].ents|
    requires forall i {:trigger s.pages[p].ents[i]} :: 0 <= i < pos ==> s.pages[p].ents[i].key < k
    requires forall i {:trigger s.pages[p].ents[i]} :: pos <= i < |s.pages[p].ents| ==> k <= s.pages[p].ents[i].key
    ensures s.pages[p].isLeaf && Sorted(s.pages[p].ents, 0)
    ensures k in g.m <==> pos < |s.pages[p].ents| && s.pages[p].ents[pos].key == k
    ensures k in g.m ==> s.pages[p].ents[pos].rid == g.m[k]
  {
    assert PageOk(s, g, p, x) && LeafOk(s, g, p);
    var ents := s.pages[p].ents;
    if k in g.m {
      assert HasKey(ents, k);
      var i :| 0 <= i < |ents| && ents[i].key == k;
      BoundIsSlot(ents, pos, i);
    }
  }

  lemma BoundIsSlot(ents: seq<Entry>, pos: nat, i: nat)
    requires Sorted(ents, 0) && pos <= |ents| && i < |ents|
    requires forall j {:trigger ents[j]} :: 0 <= j < pos ==> ents[j].key < ents[i].key
    requires forall j {:trigger ents[j]} :: pos <= j < |ents| ==> ents[i].key <= ents[j].key
    ensures i == pos
  {
    var j := if i < pos then i else pos;
    assert pos <= i ==> ents[i].key <= ents[j].key;
  }

  lemma InsertSorted(ents: seq<Entry>, pos: nat, e: Entry, lo: Bound, hi: Bound)
    requires pos <= |ents| && Sorted(ents, 0) && Within(ents, 0, lo, hi) && Below(lo, e.key) && Above(hi, e.key)
    requires forall i {:trigger ents[i]} :: 0 <= i < pos ==> ents[i].key < e.key
    requires forall i {:trigger ents[i]} :: pos <= i < |ents| ==> e.key < ents[i].key
    ensures Sorted(InsertAt(ents, pos, e), 0) && Within(InsertAt(ents, pos, e), 0, lo, hi)
  {
    var es := InsertAt(ents, pos, e);
    forall i | 0 <= i < |es| ensures es[i] == (if i < pos then ents[i] else if i == pos then e else ents[i - 1]) { }
  }

  lemma InsertHas(ents: seq<Entry>, pos: nat, e: Entry, a: Key)
    requires pos <= |ents|
    ensures HasKey(InsertAt(ents, pos, e), a) <==> a == e.key || HasKey(ents, a)
  {
    var es := InsertAt(ents, pos, e);
    assert es[pos] == e;
    if HasKey(ents, a) {
      var i :| 0 <= i < |ents| && ents[i].key == a;
      assert es[if i < pos then i else i + 1].key == a;
    }
    if HasKey(es, a) && a != e.key {
      var i :| 0 <= i < |es| && es[i].key == a;
      assert ents[if i < pos then i else i - 1].key == a;
    }
  }

  lemma RemoveSorted(ents: seq<Entry>, pos: nat, lo: Bound, hi: Bound)
    requires pos < |ents| && Sorted(ents, 0) && Within(ents, 0, lo, hi)
    ensures Sorted(RemoveAt(ents, pos), 0) && Within(RemoveAt(ents, pos), 0, lo, hi)
    ensures forall a {:trigger HasKey(RemoveAt(ents, pos), a)} :: HasKey(RemoveAt(ents, pos), a) <==>
              a != ents[pos].key && HasKey(ents, a)
  {
    var es := RemoveAt(ents, pos);
    forall i | 0 <= i < |es| ensures es[i] == (if i < pos then ents[i] else ents[i + 1]) && es[i].key != ents[pos].key {
      if i < pos { assert ents[i].key < ents[pos].key; } else { assert ents[pos].key < ents[i + 1].key; }
    }
    forall a ensures HasKey(es, a) <==> a != ents[pos].key && HasKey(ents, a) {
      RemoveHasKey(ents, pos, a);
    }
  }

  lemma RemoveHasKey(ents: seq<Entry>, pos: nat, a: Key)
    requires pos < |ents| && Sorted(ents, 0)
    ensures HasKey(RemoveAt(ents, pos), a) <==> a != ents[pos].key && HasKey(ents, a)
  {
    var es := RemoveAt(ents, pos);
    forall i | 0 <= i < |es| ensures es[i] == (if i < pos then ents[i] else ents[i + 1]) && es[i].key != ents[pos].key {
      if i < pos { assert ents[i].key < ents[pos].key; } else { assert ents[pos].key < ents[i + 1].key; }
    }
    if HasKey(ents, a) && a != ents[pos].key {
      var i :| 0 <= i < |ents| && ents[i].key == a;
      assert es[if i < pos then i else i - 1].key == a;
    }
    if HasKey(es, a) {
      var i :| 0 <= i < |es| && es[i].key == a;
      assert ents[if i < pos then i else i + 1].key == a;
    }
  }

  /** Inserting an absent key into its leaf. */
  lemma InsertWritable(s: Ix, g: Shape, x: set<int>, y: int, p: int, pos: nat, k: Key, r: Rid)
    requires Inv(s, g, x, y) && p in g.info && g.info[p].level == 0 && Covers(g, p, k)
    requires p in s.pages && pos <= |s.pages[p].ents| < MaxSize(s) && k !in g.m
    requires forall i {:trigger s.pages[p].ents[i]} :: 0 <= i < pos ==> s.pages[p].ents[i].key < k
    requires forall i {:trigger s.pages[p].ents[i]} :: pos <= i < |s.pages[p].ents| ==> k < s.pages[p].ents[i].key
    ensures LeafWritable(s, g, p, InsertAt(s.pages[p].ents, pos, Entry(k, r)), g.m[k := r])
  {
    assert PageOk(s, g, p, x);
    InsertSorted(s.pages[p].ents, pos, Entry(k, r), g.info[p].lo, g.info[p].hi);
    InsertListed(s, g, p, pos, k, r);
  }

  /** With the new pair the leaf still lists the map. */
  lemma InsertListed(s: Ix, g: Shape, p: int, pos: nat, k: Key, r: Rid)
    requires LeavesOk(s, g) && p in g.info && g.info[p].level == 0 && p in s.pages && pos <= |s.pages[p].ents|
             && k !in g.m
    ensures var es, m := InsertAt(s.pages[p].ents, pos, Entry(k, r)), g.m[k := r];
            && (forall i {:trigger es[i]} :: 0 <= i < |es| ==> es[i].key in m && m[es[i].key] == es[i].rid)
            && (forall a {:trigger a in m} :: a in m && Covers(g, p, a) ==> HasKey(es, a))
  {
    assert LeafOk(s, g, p);
    var ents, m := s.pages[p].ents, g.m[k := r];
    var es := InsertAt(ents, pos, Entry(k, r));
    forall i | 0 <= i < |es| ensures es[i].key in m && m[es[i].key] == es[i].rid {
      assert es[i] == if i < pos then ents[i] else if i == pos then Entry(k, r) else ents[i - 1];
    }
    forall a | a in m && Covers(g, p, a) ensures HasKey(es, a) {
      InsertHas(ents, pos, Entry(k, r), a);
    }
  }

  /** The state after it: nothing but the leaf may now be too full. */
  lemma InsertKeeps(s: Ix, g: Shape, p: int, pos: nat, k: Key, r: Rid)
    requires Valid(s, g) && p in g.info && g.info[p].level == 0 && Covers(g, p, k)
    requires p in s.pages && pos <= |s.pages[p].ents| && k !in g.m
    requires forall i {:trigger s.pages[p].ents[i]} :: 0 <= i < pos ==> s.pages[p].ents[i].key < k
    requires forall i {:trigger s.pages[p].ents[i]} :: pos <= i < |s.pages[p].ents| ==> k < s.pages[p].ents[i].key
    ensures var ents := InsertAt(s.pages[p].ents, pos, Entry(k, r));
            && Inv(SetEnts(s, p, ents), g.(m := g.m[k := r]), {p}, NO_PAGE)
            && |ents| == |s.pages[p].ents| + 1 <= MaxSize(s) && (p != s.root ==> |ents| > MinSize(s))
  {
    var ents, m := InsertAt(s.pages[p].ents, pos, Entry(k, r)), g.m[k := r];
    assert |ents| == |s.pages[p].ents| + 1 <= MaxSize(s) && (p != s.root ==> |ents| > MinSize(s)) by {
      assert PageOk(s, g, p, {});
    }
    assert Inv(SetEnts(s, p, ents), g.(m := m), {p}, NO_PAGE) by {
      InsertWritable(s, g, {}, NO_PAGE, p, pos, k, r);
      LeafWrite(s, g, {}, NO_PAGE, p, ents, m);
      assert {} + {p} == {p};
    }
  }

  /** Removing a present key from its leaf. */
  lemma RemoveWritable(s: Ix, g: Shape, x: set<int>, y: int, p: int, pos: nat)
    requires Inv(s, g, x, y) && p in g.info && g.info[p].level == 0
    requires p in s.pages && pos < |s.pages[p].ents|
    ensures LeafWritable(s, g, p, RemoveAt(s.pages[p].ents, pos), g.m - {s.pages[p].ents[pos].key})
  {
    assert PageOk(s, g, p, x) && LeafOk(s, g, p);
    var ents, k := s.pages[p].ents, s.pages[p].ents[pos].key;
    RemoveSorted(ents, pos, g.info[p].lo, g.info[p].hi);
    forall a | a in g.m && Covers(g, p, a) ensures HasKey(ents, a) { }
    assert Covers(g, p, k);
    var es := RemoveAt(ents, pos);
    forall i | 0 <= i < |es| ensures es[i].key != k && HasKey(ents, es[i].key) { assert HasKey(es, es[i].key); }
  }

  /** The slot `FindChild` stops at is the child's own. */
  lemma FoundSlot(s: Ix, g: Shape, x: set<int>, y: int, p: int, i: nat)
    requires Inv(s, g, x, y) && p in g.info && p in s.pages && p != s.root
    requires s.pages[p].parent in s.pages && i <= |s.pages[s.pages[p].parent].ents|
    requires i < |s.pages[s.pages[p].parent].ents| ==> Child(s.pages[s.pages[p].parent], i) == p
    requires forall k {:trigger s.pages[s.pages[p].parent].ents[k]} :: 0 <= k < i ==>
               s.pages[s.pages[p].parent].ents[k].rid.pageNo != p
    ensures i < |s.pages[s.pages[p].parent].ents| && i == g.info[p].idx
    ensures IsSlot(s, g, s.pages[p].parent, i)
    ensures g.info[s.pages[p].parent].level == g.info[p].level + 1 <= g.info[s.root].level
    ensures s.pages[p].parent != p
  {
    var q := s.pages[p].parent;
    assert UpOk(s, g, p) && PageOk(s, g, q, x);
    var d := g.info[p].idx;
    assert s.pages[q].ents[d].rid.pageNo == p;
    assert KidOk(s, g, q, i, y);
  }

  // ---------------------------------------------------------------- the handle

  /** The page with one entry more. */
  ghost predicate Inserted(before: Page, after: Page, e: Entry) {
    exists pos: nat {:trigger InsertAt(before.ents, pos, e)} ::
      pos <= |before.ents| && after == before.(ents := InsertAt(before.ents, pos, e))
  }

  class IxIndexHandle {
    const order: int
    var pages: map<int, Page>
    var root: int
    var firstFree: int
    var numPages: int
    var firstLeaf: int
    var lastLeaf: int
    var epoch: nat
    ghost var g: Shape

    ghost function View(): Ix
      reads this
    {
      Ix(pages, root, firstFree, numPages, firstLeaf, lastLeaf, order)
    }

    ghost predicate Valid()
      reads this
    {
      IxModel.Valid(View(), g)
    }

    /** The map the index stands for. */
    ghost function Contents(): map<Key, Rid>
      reads this
    {
      g.m
    }

    /** `create_index`: the leaf header and one empty leaf as root. */
    constructor (order: int)
      requires order > 2
      ensures Valid() && Contents() == map[]
      ensures this.order == order
      ensures g.info == map[INIT_ROOT_PAGE := Info(0, 0, NegInf, PosInf)] && INIT_ROOT_PAGE in pages
      ensures pages[INIT_ROOT_PAGE].ents == [] && pages[INIT_ROOT_PAGE].next == LEAF_HEADER_PAGE
    {
      this.order := order;
      pages := map[LEAF_HEADER_PAGE := Page(NO_PAGE, NO_PAGE, true, INIT_ROOT_PAGE, INIT_ROOT_PAGE, []),
                   INIT_ROOT_PAGE := Page(NO_PAGE, NO_PAGE, true, LEAF_HEADER_PAGE, LEAF_HEADER_PAGE, [])];
      root, firstFree, numPages := INIT_ROOT_PAGE, NO_PAGE, INIT_NUM_PAGES;
      firstLeaf, lastLeaf := INIT_ROOT_PAGE, INIT_ROOT_PAGE;
      epoch := 0;
      g := Shape(map[INIT_ROOT_PAGE := Info(0, 0, NegInf, PosInf)], map[], [INIT_ROOT_PAGE], [], {}, map[]);
    }

    /** Descends from the root to the leaf whose interval holds `key`. */
    method FindLeafPage(key: Key) returns (p: int)
      requires Valid()
      ensures p in pages && p in g.info && g.info[p].level == 0 && Covers(g, p, key)
      ensures forall q :: q in g.info && g.info[q].level == 0 && Covers(g, q, key) ==> q == p
    {
      p := root;
      RootCovers(View(), g, {}, NO_PAGE, key);
      assert PageOk(View(), g, p, {});
      while !pages[p].isLeaf
        invariant p in pages && Covers(g, p, key) && PageOk(View(), g, p, {})
        decreases g.info[p].level
      {
        var slot := ChildSlot(pages[p].ents, key);
        RouteStep(View(), g, {}, NO_PAGE, p, slot, key);
        p := Child(pages[p], slot);
        assert PageOk(View(), g, p, {});
      }
      forall q | q in g.info && g.info[q].level == 0 && Covers(g, q, key) ensures q == p {
        LeafUnique(View(), g, q, p, key);
      }
    }

    // -------------------------------------------------------------- insert

    /** Reuses the head of the free list or extends the file. */
    method CreateNode() returns (n: int, ghost junk: Page)
      requires firstFree != NO_PAGE ==> firstFree in pages
      modifies this`pages, this`firstFree, this`numPages
      ensures n == AllocNo(old(View()))
      ensures View() == Alloc(old(View()), junk)
      ensures old(FreeOk(View(), g)) ==> n !in g.info
    {
      if FreeOk(View(), g) {
        assert Placed(View(), g, AllocNo(View()));
      }
      junk := Page(NO_PAGE, NO_PAGE, true, NO_PAGE, NO_PAGE, []);
      if firstFree != NO_PAGE {
        n := firstFree;
        firstFree := pages[n].nextFree;
      } else {
        var fresh_: Page := *;
        junk := fresh_;
        n := numPages;
        numPages := numPages + 1;
        pages := pages[n := fresh_];
      }
    }

    /** `maintain_child` for every slot in `kids`. */
    method AdoptChildren(kids: seq<Entry>, n: int)
      requires forall i {:trigger kids[i]} :: 0 <= i < |kids| ==> kids[i].rid.pageNo in pages
      modifies this`pages
      ensures pages == Reparent(old(pages), kids, n)
    {
      var i := 0;
      assert pages == Reparent(old(pages), kids[..0], n);
      while i < |kids|
        invariant 0 <= i <= |kids|
        invariant pages == Reparent(old(pages), kids[..i], n)
      {
        var c := kids[i].rid.pageNo;
        ghost var before := pages;
        pages := pages[c := pages[c].(parent := n)];
        ReparentNext(old(pages), kids, i, n);
        i := i + 1;
      }
      assert kids[..|kids|] == kids;
    }

    /** `CreateNode` on a well-formed tree: the new page is in hand and nothing else moved. */
    method TakePage(ghost x: set<int>) returns (n: int)
      requires Inv(View(), g, x, NO_PAGE)
      modifies this`pages, this`firstFree, this`numPages, this`g
      ensures n == AllocNo(old(View())) && g == AllocShape(old(View()), old(g))
      ensures Inv(View(), g, x, NO_PAGE) && n in g.held && n !in old(g.held) && n !in g.info && n in pages
      ensures forall q :: q in old(pages) && q != n ==> q in pages && pages[q] == old(pages[q])
    {
      ghost var s0, g0 := View(), g;
      AllocFirst(s0, g0, x, NO_PAGE);
      ghost var junk;
      n, junk := CreateNode();
      AllocKeeps(s0, g0, x, NO_PAGE, junk);
      g := AllocShape(s0, g0);
    }

    /** Splits page `p`. The ghost `s1` is the state with the new page `n` in hand and nothing
        moved yet. */
    method Split(p: int, ghost x: set<int>) returns (n: int, ghost s1: Ix)
      requires Inv(View(), g, x, NO_PAGE) && p in g.info && p in pages
      modifies this
      ensures g == AllocShape(old(View()), old(g)) && n == AllocNo(old(View()))
      ensures Inv(s1, g, x, NO_PAGE) && n in g.held && n !in old(g.held) && n in s1.pages
      ensures s1.root == old(root) && s1.order == order
      ensures forall q :: q in old(pages) && q != n ==> q in s1.pages && s1.pages[q] == old(pages[q])
      ensures p != n && p in s1.pages && (s1.pages[p].isLeaf ==> s1.pages[p].next in s1.pages)
      ensures View() == IxSplit.Split(s1, p, n)
      ensures epoch == old(epoch) + 1
    {
      epoch := epoch + 1;
      n := TakePage(x);
      s1 := View();
      assert n != p;
      MoveHalf(p, n, x);
    }

    method MoveHalf(p: int, n: int, ghost x: set<int>)
      requires Inv(View(), g, x, NO_PAGE) && p in g.info && p in pages && n in pages && n in g.held && n != p
      modifies this`pages, this`lastLeaf
      ensures old(pages[p].isLeaf ==> pages[p].next in pages)
      ensures View() == IxSplit.Split(old(View()), p, n)
    {
      NextIsPage(View(), g, x, p);
      if !pages[p].isLeaf {
        KidsArePages(View(), g, x, p);
      }
      WriteHalves(p, n);
    }

    method WriteHalves(p: int, n: int)
      requires p in pages && n in pages && n != p
      requires pages[p].isLeaf ==> pages[p].next in pages && pages[p].next != p && pages[p].next != n
      requires !pages[p].isLeaf ==> forall i {:trigger pages[p].ents[i]} :: 0 <= i < |pages[p].ents| ==>
                 pages[p].ents[i].rid.pageNo in pages
      modifies this`pages, this`lastLeaf
      ensures View() == IxSplit.Split(old(View()), p, n)
    {
      var pg := pages[p];
      var h := |pg.ents| / 2;
      var right := pages[n].(isLeaf := pg.isLeaf, parent := pg.parent, ents := pg.ents[h..]);
      var left := pg.(ents := pg.ents[..h]);
      pages := pages[n := right];
      pages := pages[p := left];
      if pg.isLeaf {
        LinkLeaves(p, n, pg.next);
      } else {
        AdoptChildren(pg.ents[h..], n);
      }
    }

    /** Puts leaf `n` behind leaf `p` in the chain. */
    method LinkLeaves(p: int, n: int, next: int)
      requires p in pages && n in pages && next in pages && n != p && next != p && next != n
      modifies this`pages, this`lastLeaf
      ensures pages == old(pages)[n := old(pages)[n].(next := next, prev := p)][next := old(pages)[next].(prev := n)]
                                 [p := old(pages)[p].(next := n)]
      ensures lastLeaf == if old(lastLeaf) == p then n else old(lastLeaf)
    {
      pages := pages[n := pages[n].(next := next, prev := p)];
      pages := pages[next := pages[next].(prev := n)];
      pages := pages[p := pages[p].(next := n)];
      if lastLeaf == p {
        lastLeaf := n;
      }
    }

    /** `p` was full and is split; its right half `n` is not linked yet. */
    ghost predicate HalfDone(p: int, key: Key, n: int, s1: Ix)
      reads this
    {
      && s1.order == order && Inv(s1, g, {p}, NO_PAGE)
      && p in g.info && p in s1.pages && n in g.held && n in s1.pages
      && |s1.pages[p].ents| == MaxSize(s1)
      && (s1.pages[p].isLeaf ==> s1.pages[p].next in s1.pages)
      && View() == IxSplit.Split(s1, p, n) && n in pages && |pages[n].ents| > 0 && key == pages[n].ents[0].key
    }

    /** The split page was the root: a new root takes both halves. */
    method AddRoot(p: int, key: Key, n: int, ghost s1: Ix)
      requires HalfDone(p, key, n, s1) && p == s1.root
      modifies this
      ensures Inv(View(), g, {}, NO_PAGE) && g.held == old(g.held) - {n} && g.m == old(g.m) && epoch == old(epoch)
    {
      RootApart(s1, g, p, n);
      ghost var junk := WriteRoot(p, key, n);
      IxNewRoot.NewRootKeeps(s1, g, p, n, junk);
      g := IxNewRoot.NewRootShape(s1, g, p, n, junk);
    }

    /** A page for the new root, and what is written there and in the two halves. */
    method WriteRoot(p: int, key: Key, n: int) returns (ghost junk: Page)
      requires firstFree != NO_PAGE ==> firstFree in pages
      requires p in pages && n in pages && AllocNo(View()) != p && AllocNo(View()) != n
      requires |pages[p].ents| > 0 && |pages[n].ents| > 0 && pages[n].ents[0].key == key
      modifies this`pages, this`root, this`firstFree, this`numPages
      ensures var s, r := Alloc(old(View()), junk), AllocNo(old(View()));
              && p in s.pages && n in s.pages && r in s.pages && |s.pages[p].ents| > 0 && |s.pages[n].ents| > 0
              && View() == IxNewRoot.NewRoot(s, p, n, r)
    {
      var r: int;
      r, junk := CreateNode();
      SetRoot(p, key, n, r);
    }

    /** Fills page `r` as the root over `p` and `n`. */
    method SetRoot(p: int, key: Key, n: int, r: int)
      requires p in pages && n in pages && r in pages && r != p && r != n && |pages[p].ents| > 0 && |pages[n].ents| > 0
      requires pages[n].ents[0].key == key
      modifies this`pages, this`root
      ensures View() == IxNewRoot.NewRoot(old(View()), p, n, r)
    {
      pages := pages[r := pages[r].(isLeaf := false, parent := NO_PAGE,
                                    ents := [Entry(pages[p].ents[0].key, Rid(p, 0)), Entry(key, Rid(n, 0))])];
      pages := pages[p := pages[p].(parent := r)];
      pages := pages[n := pages[n].(parent := r)];
      root := r;
    }

    /** Inserts the right half behind `p` in its parent `q`. */
    method LinkSibling(p: int, key: Key, n: int, ghost s1: Ix) returns (q: int)
      requires HalfDone(p, key, n, s1) && p != s1.root
      modifies this`pages, this`g
      ensures Inv(View(), g, {q}, NO_PAGE) && g.held == old(g.held) - {n} && g.m == old(g.m)
      ensures root == old(root) && q in pages && q in g.info
      ensures root in g.info && g.info[root].level == old(g.info[s1.root].level)
      ensures g.info[q].level == old(g.info[p].level) + 1 <= g.info[root].level
      ensures |pages[q].ents| >= 2 && (q != root ==> |pages[q].ents| >= MinSize(View()))
    {
      LinkKeeps(s1, g, p, n);
      q := pages[p].parent;
      var i := FindChild(pages[q].ents, p);
      FoundSlot(s1, g, {p}, NO_PAGE, p, i);
      pages := pages[q := pages[q].(ents := InsertAt(pages[q].ents, i + 1, Entry(key, Rid(n, 0))))];
      pages := pages[n := pages[n].(parent := q)];
      assert View() == IxSplit.Link(IxSplit.Split(s1, p, n), q, i, n);
      g := IxSplit.SplitShape(s1, g, p, n);
    }

    /** Puts the new right sibling `n` of `p` under their parent, splitting upwards as long as
        parents fill up; a split root gets a new root above it. */
    method InsertIntoParent(p: int, key: Key, n: int, ghost s1: Ix)
      requires HalfDone(p, key, n, s1)
      modifies this
      ensures Inv(View(), g, {}, NO_PAGE) && g.held == old(g.held) - {n} && g.m == old(g.m)
      ensures epoch > old(epoch)
      decreases if s1.root in g.info then g.info[s1.root].level - g.info[p].level else 0, 0
    {
      epoch := epoch + 1;
      SplitKeepsParents(s1, g, p, n);
      RootHasNoParent(s1, g, {p}, p);
      if pages[p].parent == NO_PAGE {
        AddRoot(p, key, n, s1);
        return;
      }
      var q := LinkSibling(p, key, n, s1);
      FinishParent(q);
    }

    /** Splits a parent that the separator has filled. */
    method FinishParent(q: int)
      requires Inv(View(), g, {q}, NO_PAGE) && q in pages && q in g.info && root in g.info
               && g.info[q].level <= g.info[root].level
      requires |pages[q].ents| >= 2 && (q != root ==> |pages[q].ents| >= MinSize(View()))
      modifies this
      ensures Inv(View(), g, {}, NO_PAGE) && g.held == old(g.held) && g.m == old(g.m) && epoch >= old(epoch)
      decreases g.info[root].level - g.info[q].level, 1
    {
      assert PageOk(View(), g, q, {q});
      if |pages[q].ents| >= order + 1 {
        var n2: int;
        ghost var s2;
        n2, s2 := Split(q, {q});
        SplitKeepsParents(s2, g, q, n2);
        InsertIntoParent(q, pages[n2].ents[0].key, n2, s2);
      } else {
        OnlyTooFull(View(), g, q);
      }
    }

    /** `IxNodeHandle::insert` on the leaf that covers `key`; false stands for DuplicateKeyError. */
    method InsertInLeaf(p: int, key: Key, rid: Rid) returns (ok: bool)
      requires Valid() && p in pages && p in g.info && g.info[p].level == 0 && Covers(g, p, key)
      modifies this`pages, this`g
      ensures ok <==> key !in old(g.m)
      ensures !ok ==> pages == old(pages) && g == old(g)
      ensures p in pages && pages == old(pages)[p := pages[p]]
      ensures ok ==> Inserted(old(pages[p]), pages[p], Entry(key, rid))
      ensures ok ==> g == old(g).(m := old(g.m)[key := rid]) && Inv(View(), g, {p}, NO_PAGE)
      ensures ok ==> p in pages && |pages[p].ents| == old(|pages[p].ents|) + 1 <= MaxSize(View()) && pages[p].isLeaf
      ensures ok && p != root ==> |pages[p].ents| > MinSize(View())
    {
      assert PageOk(View(), g, p, {});
      var pos := LowerBound(pages[p].ents, key);
      LeafAnswers(View(), g, {}, NO_PAGE, p, key, pos);
      if pos < |pages[p].ents| && pages[p].ents[pos].key == key {
        return false;
      }
      WriteEntry(p, pos, key, rid);
      ok := true;
    }

    method WriteEntry(p: int, pos: nat, key: Key, rid: Rid)
      requires Valid() && p in pages && p in g.info && g.info[p].level == 0 && Covers(g, p, key)
      requires pos <= |pages[p].ents| && key !in g.m
      requires forall i {:trigger pages[p].ents[i]} :: 0 <= i < pos ==> pages[p].ents[i].key < key
      requires forall i {:trigger pages[p].ents[i]} :: pos <= i < |pages[p].ents| ==> key < pages[p].ents[i].key
      modifies this`pages, this`g
      ensures p in pages && pages == old(pages)[p := pages[p]]
      ensures pages[p] == old(pages[p]).(ents := InsertAt(old(pages[p].ents), pos, Entry(key, rid)))
      ensures g == old(g).(m := old(g.m)[key := rid]) && Inv(View(), g, {p}, NO_PAGE)
      ensures |pages[p].ents| == old(|pages[p].ents|) + 1 <= MaxSize(View())
      ensures p != root ==> |pages[p].ents| > MinSize(View())
    {
      ghost var s := View();
      var ents := InsertAt(pages[p].ents, pos, Entry(key, rid));
      InsertKeeps(s, g, p, pos, key, rid);
      pages := pages[p := pages[p].(ents := ents)];
      assert View() == SetEnts(s, p, ents);
      g := g.(m := g.m[key := rid]);
    }

    /** A ticket is sound when, for as long as the epoch it was issued in lasts, its leaf is the one
        a fresh descent for its key ends in. */
    ghost predicate Sound(t: LeafTicket)
      reads this, t
    {
      t.valid && t.owner == this ==>
        && t.epoch <= epoch
        && (t.epoch == epoch ==> t.leaf in g.info && g.info[t.leaf].level == 0 && Covers(g, t.leaf, t.key))
    }

    /** Exact lookup; on the way out it may hand the caller a ticket for the leaf it ended in. */
    method GetValue(key: Key, ticket: LeafTicket?) returns (found: bool, rid: Rid)
      requires Valid()
      modifies ticket
      ensures found <==> key in Contents()
      ensures found ==> rid == Contents()[key]
      ensures ticket != null ==>
                Sound(ticket) && ticket.valid && ticket.owner == this && ticket.key == key && ticket.epoch == epoch
    {
      var p := FindLeafPage(key);
      if ticket != null {
        ticket.owner, ticket.key, ticket.leaf, ticket.epoch, ticket.valid := this, key, p, epoch, true;
      }
      assert PageOk(View(), g, p, {});
      var pos := LowerBound(pages[p].ents, key);
      LeafAnswers(View(), g, {}, NO_PAGE, p, key, pos);
      if pos < |pages[p].ents| && pages[p].ents[pos].key == key {
        return true, pages[p].ents[pos].rid;
      }
      return false, Rid(0, 0);
    }

    /** Uses up `ticket` and says whether it may stand in for the descent. */
    method Consume(ticket: LeafTicket?, key: Key) returns (hit: bool)
      requires Valid() && (ticket != null ==> Sound(ticket))
      modifies ticket
      ensures ticket != null ==> !ticket.valid && ticket.leaf == old(ticket.leaf)
      ensures hit ==> ticket != null && ticket.leaf in pages && ticket.leaf in g.info && g.info[ticket.leaf].level == 0
      ensures hit ==> Covers(g, ticket.leaf, key)
    {
      hit := ticket != null && ticket.valid && ticket.owner == this && ticket.epoch == epoch && ticket.key == key &&
             INIT_ROOT_PAGE <= ticket.leaf < numPages;
      if ticket != null {
        if hit { assert PageOk(View(), g, ticket.leaf, {}); }
        ticket.valid := false;
      }
    }

    /** The leaf for `key`, from the ticket when it still holds and from the root otherwise. */
    method Locate(ticket: LeafTicket?, key: Key) returns (leafNo: int)
      requires Valid() && (ticket != null ==> Sound(ticket))
      modifies ticket
      ensures leafNo in pages && leafNo in g.info && g.info[leafNo].level == 0 && Covers(g, leafNo, key)
              && pages[leafNo].isLeaf
      ensures ticket != null ==> !ticket.valid
    {
      var hit := Consume(ticket, key);
      if hit { leafNo := ticket.leaf; } else { leafNo := FindLeafPage(key); }
      assert PageOk(View(), g, leafNo, {});
    }

    /** Inserts into leaf `p` and splits it when that fills it. */
    method InsertAndSplit(p: int, key: Key, rid: Rid) returns (ok: bool)
      requires Valid() && p in pages && p in g.info && g.info[p].level == 0 && Covers(g, p, key)
      modifies this
      ensures Valid()
      ensures ok <==> key !in old(Contents())
      ensures ok ==> Contents() == old(Contents())[key := rid]
      ensures !ok ==> View() == old(View()) && g == old(g) && epoch == old(epoch)
      ensures epoch >= old(epoch) && (epoch == old(epoch) ==> g.info == old(g.info))
    {
      ok := InsertInLeaf(p, key, rid);
      if ok {
        if |pages[p].ents| >= order + 1 {
          SplitUp(p);
        } else {
          OnlyTooFull(View(), g, p);
        }
      }
    }

    /** Splits the full page `p` and repairs the tree above it. */
    method SplitUp(p: int)
      requires Inv(View(), g, {p}, NO_PAGE) && p in g.info && p in pages && |pages[p].ents| == MaxSize(View())
      modifies this
      ensures Inv(View(), g, {}, NO_PAGE) && g.held == old(g.held) && g.m == old(g.m)
      ensures epoch > old(epoch)
    {
      var n: int;
      ghost var s1;
      n, s1 := Split(p, {p});
      SplitKeepsParents(s1, g, p, n);
      assert g.held == old(g.held) + {n};
      InsertIntoParent(p, pages[n].ents[0].key, n, s1);
    }

    /** The insert that touches one leaf only: `done` says the leaf had room below the split
        threshold, in which case no boundary moves and every other page is left alone. */
    method FastInsert(key: Key, rid: Rid, ticket: LeafTicket?) returns (done: bool, ok: bool, leafNo: int)
      requires Valid() && (ticket != null ==> Sound(ticket))
      modifies this`pages, this`g, ticket
      ensures Valid() && g.info == old(g.info) && g.chain == old(g.chain)
      ensures leafNo in g.info && g.info[leafNo].level == 0 && Covers(g, leafNo, key) && leafNo in pages
      ensures ok <==> done && key !in old(Contents())
      ensures ok ==> Contents() == old(Contents())[key := rid]
      ensures !ok ==> View() == old(View()) && g == old(g)
      ensures pages == old(pages)[leafNo := pages[leafNo]] && leafNo in old(pages)
      ensures done <==> |old(pages)[leafNo].ents| < order
      ensures ok ==> Inserted(old(pages)[leafNo], pages[leafNo], Entry(key, rid))
      ensures ticket != null ==> !ticket.valid
    {
      leafNo := Locate(ticket, key);
      done, ok := |pages[leafNo].ents| < order + 1 - 1, false;
      if done {
        ok := InsertInLeaf(leafNo, key, rid);
        if ok { OnlyTooFull(View(), g, leafNo); }
      }
    }

    /** Inserts an absent key or reports a duplicate and changes nothing. With `concurrent` the
        insert first tries to touch the one leaf only. `leafNo` is the leaf that covered the key
        when the call began. */
    method InsertEntry(key: Key, rid: Rid, ticket: LeafTicket?, concurrent: bool) returns (ok: bool, leafNo: int)
      requires Valid() && (ticket != null ==> Sound(ticket))
      modifies this, ticket
      ensures Valid()
      ensures ok <==> key !in old(Contents())
      ensures ok ==> Contents() == old(Contents())[key := rid]
      ensures !ok ==> View() == old(View()) && g == old(g) && epoch == old(epoch)
      ensures leafNo in old(g.info) && old(g.info)[leafNo].level == 0 && old(Covers(g, leafNo, key))
      ensures epoch >= old(epoch) && (epoch == old(epoch) ==> g.info == old(g.info))
      ensures ticket != null ==> !ticket.valid
    {
      if concurrent {
        var done: bool;
        done, ok, leafNo := FastInsert(key, rid, ticket);
        if done {
          return;
        }
      }
      leafNo := Locate(ticket, key);
      ok := InsertAndSplit(leafNo, key, rid);
    }

    // -------------------------------------------------------------- delete

    /** Writes the first key of `p` into the slot above it and, while that slot is slot 0, on into
        the slots above. */
    method MaintainParent(p: int)
      requires Inv(View(), g, {}, NO_PAGE) && p in g.info && p in pages && |pages[p].ents| > 0
      modifies this`pages, this`g
      ensures Inv(View(), g, {}, NO_PAGE) && g.held == old(g.held) && g.m == old(g.m)
    {
      var b := pages[p].ents[0].key;
      var c, q := p, pages[p].parent;
      StartWaiting(View(), g, p);
      assert PageOk(View(), g, p, {});
      while q != NO_PAGE
        invariant c in g.info && c in pages && q == pages[c].parent
        invariant Inv(View(), g, {}, c) && g.held == old(g.held) && g.m == old(g.m)
        invariant !pages[c].isLeaf ==> |pages[c].ents| > 0 && pages[c].ents[0].key == b
        invariant StillLeaf(View(), g, p, c, b) || (c == p && Inv(View(), g, {}, NO_PAGE) && !pages[p].isLeaf)
        invariant root in g.info && g.info[c].level <= g.info[root].level
        decreases g.info[root].level - g.info[c].level
      {
        var more := RefreshAbove(p, c, q, b);
        if !more {
          return;
        }
        c, q := q, pages[q].parent;
      }
      RootHasNoParentY(View(), g, c);
      IxRaise.StopWaiting(View(), g, {}, c);
    }

    /** The last step of `MaintainParent`: the slot above is a separator. */
    /** One level: the slot above `c` gets the key `b` unless it has it; on to the next level after slot 0. */
    method RefreshAbove(ghost p: int, c: int, q: int, b: Key) returns (more: bool)
      requires c in g.info && c in pages && q == pages[c].parent != NO_PAGE && Inv(View(), g, {}, c)
      requires !pages[c].isLeaf ==> |pages[c].ents| > 0 && pages[c].ents[0].key == b
      requires StillLeaf(View(), g, p, c, b) || (c == p && Inv(View(), g, {}, NO_PAGE) && !pages[p].isLeaf)
      modifies this`pages, this`g
      ensures g.held == old(g.held) && g.m == old(g.m)
      ensures if more then Inv(View(), g, {}, q) && g == old(g) && StillLeaf(View(), g, p, q, b)
              else Inv(View(), g, {}, NO_PAGE)
      ensures more ==> q in g.info && q in pages && |pages[q].ents| > 0 && pages[q].ents[0].key == b
      ensures more ==> root in g.info && g.info[q].level == g.info[c].level + 1 <= g.info[root].level
    {
      HasParent(View(), g, c);
      var rank := FindChild(pages[q].ents, c);
      FoundSlot(View(), g, {}, c, c, rank);
      if !StillLeaf(View(), g, p, c, b) { KeyAbove(View(), g, c, rank); }
      if pages[q].ents[rank].key == b {
        IxRaise.StopWaiting(View(), g, {}, c);
        return false;
      }
      if rank != 0 {
        RaiseHere(rank, p, c, b);
        return false;
      }
      SetFirstKey(p, c, q, b);
      more := true;
    }

    /** Writes the key into slot 0 of the parent, whose own refresh is pending then. */
    method SetFirstKey(ghost p: int, ghost c: int, q: int, b: Key)
      requires Inv(View(), g, {}, c) && c in g.info && c in pages && StillLeaf(View(), g, p, c, b)
      requires IsSlot(View(), g, q, 0) && Child(pages[q], 0) == c && pages[c].parent == q
      requires !pages[c].isLeaf ==> |pages[c].ents| > 0 && pages[c].ents[0].key == b
      modifies this`pages
      ensures Inv(View(), g, {}, q) && q in g.info && q in pages && StillLeaf(View(), g, p, q, b)
      ensures !pages[q].isLeaf && |pages[q].ents| > 0 && pages[q].ents[0].key == b
    {
      IxRaise.SetFirstKeeps(View(), g, {}, c, q, b);
      assert KidOk(View(), g, q, 0, c);
      assert p != q by { assert PageOk(View(), g, p, {}); }
      pages := pages[q := pages[q].(ents := pages[q].ents[0 := pages[q].ents[0].(key := b)])];
    }

    method RaiseHere(rank: nat, ghost p: int, c: int, b: Key)
      requires Inv(View(), g, {}, c) && c in g.info && c in pages && StillLeaf(View(), g, p, c, b)
      requires pages[c].parent in pages && IsSlot(View(), g, pages[c].parent, rank) && rank >= 1
      requires Child(pages[pages[c].parent], rank) == c && pages[pages[c].parent].ents[rank].key != b
      requires !pages[c].isLeaf ==> |pages[c].ents| > 0 && pages[c].ents[0].key == b
      modifies this`pages, this`g
      ensures Inv(View(), g, {}, NO_PAGE) && g.held == old(g.held) && g.m == old(g.m)
    {
      var q := pages[c].parent;
      ghost var a := pages[q].ents[rank].key;
      IxRaise.RaiseKeeps(View(), g, {}, c, q, rank, p, a, b);
      pages := pages[q := pages[q].(ents := pages[q].ents[rank := pages[q].ents[rank].(key := b)])];
      g := IxRaise.RaiseShape(g, q, g.info[q].level, a, b);
    }

    /** An internal root with a single child gives way to it; any other root stays. */
    method AdjustRoot(p: int)
      requires Inv(View(), g, {p}, NO_PAGE) && p == root && p in pages && p in g.info
      requires |pages[p].ents| < MaxSize(View())
      modifies this
      ensures Inv(View(), g, {}, NO_PAGE) && g.held == old(g.held) && g.m == old(g.m)
      ensures epoch > old(epoch)
    {
      epoch := epoch + 1;
      assert PageOk(View(), g, p, {p});
      if !pages[p].isLeaf && |pages[p].ents| == 1 {
        var c := Child(pages[p], 0);
        CollapseRootKeeps(View(), g, {p}, NO_PAGE);
        assert Placed(View(), g, p);
        ghost var g1 := CollapseShape(View(), g);
        pages := pages[p := pages[p].(ents := [])];
        root := c;
        pages := pages[c := pages[c].(parent := NO_PAGE)];
        g := g1;
        ReleasePage(p, {p});
        DeadExempt(View(), g, p);
      } else {
        OnlyTooFull(View(), g, p);
      }
    }

    /** `release_node_handle`: pushes page `p` onto the free list. */
    method ReleasePage(p: int, ghost x: set<int>)
      requires Inv(View(), g, x, NO_PAGE) && p in g.held && p in pages
      modifies this`pages, this`firstFree, this`g
      ensures Inv(View(), g, x, NO_PAGE) && g == ReleaseShape(old(g), p)
      ensures View() == Release(old(View()), p)
    {
      ReleaseKeeps(View(), g, x, NO_PAGE, p);
      pages := pages[p := pages[p].(nextFree := firstFree)];
      firstFree := p;
      g := ReleaseShape(g, p);
    }

    /** `l` takes the first pair of its right neighbour `r`. */
    method BorrowFirst(q: int, j: nat, l: int, r: int, ghost x: set<int>)
      requires l in pages && IxRebalance.CanRebalance(View(), g, x, q, j, l, r, |pages[l].ents| + 1)
      modifies this`pages, this`g
      ensures Inv(View(), g, x - {l, r}, NO_PAGE) && g.held == old(g.held) && g.m == old(g.m)
    {
      ghost var s := View();
      IxRebalance.TakeFirstKeeps(s, g, x, q, j, l, r);
      var e := pages[r].ents[0];
      pages := pages[l := pages[l].(ents := pages[l].ents + [e])];
      pages := pages[r := pages[r].(ents := pages[r].ents[1..])];
      pages := pages[q := pages[q].(ents :=
          pages[q].ents[j + 1 := pages[q].ents[j + 1].(key := pages[r].ents[0].key)])];
      if !pages[l].isLeaf {
        pages := pages[e.rid.pageNo := pages[e.rid.pageNo].(parent := l)];
      }
      g := IxRebalance.RebShape(s, g, q, j, l, r, |s.pages[l].ents| + 1);
    }

    /** `r` takes the last pair of its left neighbour `l`. */
    method BorrowLast(q: int, j: nat, l: int, r: int, ghost x: set<int>)
      requires l in pages && IxRebalance.CanRebalance(View(), g, x, q, j, l, r, |pages[l].ents| - 1)
      modifies this`pages, this`g
      ensures Inv(View(), g, x - {l, r}, NO_PAGE) && g.held == old(g.held) && g.m == old(g.m)
    {
      ghost var s := View();
      IxRebalance.TakeLastKeeps(s, g, x, q, j, l, r);
      var last := |pages[l].ents| - 1;
      var e := pages[l].ents[last];
      pages := pages[r := pages[r].(ents := [e] + pages[r].ents)];
      pages := pages[l := pages[l].(ents := pages[l].ents[..last])];
      pages := pages[q := pages[q].(ents := pages[q].ents[j + 1 := pages[q].ents[j + 1].(key := e.key)])];
      if !pages[r].isLeaf {
        pages := pages[e.rid.pageNo := pages[e.rid.pageNo].(parent := r)];
      }
      g := IxRebalance.RebShape(s, g, q, j, l, r, |s.pages[l].ents| - 1);
    }

    /** Borrows one pair from the neighbour: its first if `p` is the first child, its last otherwise. */
    method Redistribute(p: int, nb: int, q: int, idx: nat)
      requires Neighbouring(View(), g, p, nb, q, idx)
      requires MinSize(View()) < |pages[nb].ents|
      modifies this
      ensures Inv(View(), g, {}, NO_PAGE) && g.held == old(g.held) && g.m == old(g.m)
      ensures epoch > old(epoch)
    {
      epoch := epoch + 1;
      if idx == 0 {
        BorrowFirst(q, 0, p, nb, {p});
        assert {p} - {p, nb} == {};
      } else {
        BorrowLast(q, idx - 1, nb, p, {p});
        assert {p} - {nb, p} == {};
      }
    }

    /** Appends `r` to its left neighbour `l`, unchains or empties it, drops its slot in `q` and frees it. */
    method Merge(q: int, j: nat, l: int, r: int, ghost x: set<int>)
      requires Inv(View(), g, x, NO_PAGE) && IxRebalance.Neighbours(View(), g, q, j, l, r)
      requires l in pages && r in pages && l in g.info && r in g.info
      requires MinSize(View()) <= |pages[l].ents| + |pages[r].ents| < MaxSize(View())
      modifies this
      ensures Inv(View(), g, x - {l, r} + {q}, NO_PAGE) && g.held == old(g.held) && g.m == old(g.m)
      ensures q in pages && q in g.info && |pages[q].ents| == old(|pages[q].ents|) - 1
      ensures root == old(root) && g.info.Keys == old(g.info.Keys) - {r} && root in g.info
      ensures g.info[root].level == old(g.info)[root].level && g.info[q].level == old(g.info)[q].level
      ensures epoch == old(epoch)
    {
      ghost var s, g0 := View(), g;
      IxRebalance.NeighbourFacts(s, g, x, q, j, l, r);
      IxMerge.MergeIntoKeeps(s, g, x, q, j, l, r);
      MergePages(q, j, l, r, x);
      g := IxMerge.MergeShape(s, g, q, j, l, r);
      assert Placed(s, g0, r);
      ReleasePage(r, x - {l, r} + {q});
      assert g.held == g0.held;
    }

    method MergePages(q: int, j: nat, l: int, r: int, ghost x: set<int>)
      requires Inv(View(), g, x, NO_PAGE) && IxRebalance.Neighbours(View(), g, q, j, l, r)
      requires l in pages && r in pages && l in g.info && r in g.info
      requires l != q && l != r && (pages[r].isLeaf ==> pages[r].prev in pages && pages[r].next in pages)
      modifies this`pages, this`lastLeaf
      ensures View() == IxMerge.MergeInto(old(View()), q, j, l, r)
    {
      ghost var s := View();
      IxRebalance.NeighbourFacts(s, g, x, q, j, l, r);
      var moved := pages[r].ents;
      if !pages[r].isLeaf { KidsArePages(s, g, x, r); }
      pages := pages[l := pages[l].(ents := pages[l].ents + moved)];
      if pages[r].isLeaf {
        var before, behind := pages[r].prev, pages[r].next;
        pages := pages[before := pages[before].(next := behind)];
        pages := pages[behind := pages[behind].(prev := pages[r].prev)];
        if lastLeaf == r {
          lastLeaf := l;
        }
      } else {
        AdoptChildren(moved, l);
      }
      pages := pages[q := pages[q].(ents := RemoveAt(pages[q].ents, j + 1))];
    }

    /** Repairs the tree from `p` upwards after a pair was removed from it: nothing at the root,
        a refreshed separator, a borrow, or a merge that goes on at the parent. */
    method CoalesceOrRedistribute(p: int)
      requires Inv(View(), g, {p}, NO_PAGE) && p in g.info && p in pages
      requires |pages[p].ents| < MaxSize(View()) && (p != root ==> |pages[p].ents| >= MinSize(View()) - 1)
      modifies this
      ensures Inv(View(), g, {}, NO_PAGE) && g.held == old(g.held) && g.m == old(g.m)
      ensures epoch > old(epoch)
      decreases if root in g.info then g.info[root].level - g.info[p].level else 0
    {
      epoch := epoch + 1;
      RootHasNoParent(View(), g, {p}, p);
      if pages[p].parent == NO_PAGE {
        AdjustRoot(p);
        return;
      }
      if |pages[p].ents| >= (order + 1) / 2 {
        OnlyTooFull(View(), g, p);
        MaintainParent(p);
        return;
      }
      var q := pages[p].parent;
      var idx := FindChild(pages[q].ents, p);
      FoundSlot(View(), g, {p}, NO_PAGE, p, idx);
      SizeAbove(View(), g, p);
      var nb := Child(pages[q], if idx > 0 then idx - 1 else idx + 1);
      NeighbourSize(View(), g, p, nb, q, idx);
      if |pages[p].ents| + |pages[nb].ents| >= 2 * ((order + 1) / 2) {
        Redistribute(p, nb, q, idx);
        return;
      }
      var l, r := if idx > 0 then nb else p, if idx > 0 then p else nb;
      Merge(q, if idx > 0 then idx - 1 else 0, l, r, {p});
      assert {p} - {l, r} + {q} == {q};
      CoalesceOrRedistribute(q);
    }

    /** Removes `key` if present and says whether it was. */
    method DeleteEntry(key: Key) returns (deleted: bool)
      requires Valid()
      modifies this
      ensures Valid()
      ensures deleted <==> key in old(Contents())
      ensures Contents() == old(Contents()) - {key}
      ensures !deleted ==> View() == old(View()) && g == old(g) && epoch == old(epoch)
      ensures epoch >= old(epoch) && (epoch == old(epoch) ==> g.info == old(g.info))
    {
      var p := FindLeafPage(key);
      assert PageOk(View(), g, p, {});
      var pos := LowerBound(pages[p].ents, key);
      LeafAnswers(View(), g, {}, NO_PAGE, p, key, pos);
      deleted := pos < |pages[p].ents| && pages[p].ents[pos].key == key;
      if !deleted {
        assert old(Contents()) - {key} == old(Contents());
        return;
      }
      RemoveWritable(View(), g, {}, NO_PAGE, p, pos);
      LeafWrite(View(), g, {}, NO_PAGE, p, RemoveAt(pages[p].ents, pos), g.m - {key});
      assert {} + {p} == {p};
      if pos == 0 {
        epoch := epoch + 1;
      }
      pages := pages[p := pages[p].(ents := RemoveAt(pages[p].ents, pos))];
      g := g.(m := g.m - {key});
      CoalesceOrRedistribute(p);
    }
  }

  /** Page `p`, one pair too small, and the neighbour it turns to. */
  ghost predicate Neighbouring(s: Ix, g: Shape, p: int, nb: int, q: int, idx: int) {
    && Inv(s, g, {p}, NO_PAGE)
    && p in s.pages && nb in s.pages && p in g.info && nb in g.info
    && |s.pages[p].ents| == MinSize(s) - 1 && MinSize(s) <= |s.pages[nb].ents| < MaxSize(s)
    && (if idx == 0 then IxRebalance.Neighbours(s, g, q, 0, p, nb)
        else idx > 0 && IxRebalance.Neighbours(s, g, q, idx - 1, nb, p))
  }

  lemma SizeAbove(s: Ix, g: Shape, p: int)
    requires Inv(s, g, {p}, NO_PAGE) && p in g.info && p in s.pages && p != s.root
    ensures s.pages[p].parent in s.pages && |s.pages[s.pages[p].parent].ents| >= 2 && MinSize(s) >= 2
  {
    assert UpOk(s, g, p) && PageOk(s, g, s.pages[p].parent, {p});
  }

  lemma NeighbourSize(s: Ix, g: Shape, p: int, nb: int, q: int, idx: nat)
    requires Inv(s, g, {p}, NO_PAGE) && p in g.info && p in s.pages && p != s.root
    requires q == s.pages[p].parent && IsSlot(s, g, q, idx) && Child(s.pages[q], idx) == p && |s.pages[q].ents| >= 2
    requires nb == Child(s.pages[q], if idx > 0 then idx - 1 else idx + 1)
    requires |s.pages[p].ents| == MinSize(s) - 1
    ensures Neighbouring(s, g, p, nb, q, idx) && nb != p && q in g.info && q in s.pages
    ensures |s.pages[q].ents| < MaxSize(s) && (q != s.root ==> |s.pages[q].ents| >= MinSize(s))
    ensures s.root in g.info && g.info[p].level < g.info[q].level <= g.info[s.root].level
  {
    var o := if idx > 0 then idx - 1 else idx + 1;
    assert KidOk(s, g, q, idx, NO_PAGE) && KidOk(s, g, q, o, NO_PAGE);
    assert PageOk(s, g, nb, {p}) && PageOk(s, g, q, {p});
  }

  /** A page that left the tree needs no exemption. */
  lemma DeadExempt(s: Ix, g: Shape, p: int)
    requires Inv(s, g, {p}, NO_PAGE) && p !in g.info
    ensures Inv(s, g, {}, NO_PAGE)
  {
    forall q | q in g.info ensures PageOk(s, g, q, {}) {
      assert PageOk(s, g, q, {p});
    }
  }

  /** `p` is still the leaf below `c` that starts where `c` starts, with first key `b`. */
  ghost predicate StillLeaf(s: Ix, g: Shape, p: int, c: int, b: Key) {
    && p in s.pages && p in g.info && c in g.info && g.info[p].level == 0 && g.info[p].lo == g.info[c].lo
    && |s.pages[p].ents| > 0 && s.pages[p].ents[0].key == b
  }

  lemma StartWaiting(s: Ix, g: Shape, p: int)
    requires Inv(s, g, {}, NO_PAGE) && p in g.info && p in s.pages
    ensures Inv(s, g, {}, p)
    ensures s.root in g.info && g.info[p].level <= g.info[s.root].level
    ensures s.pages[p].isLeaf <==> g.info[p].level == 0
  {
    IxRaise.StartWaiting(s, g, {}, p);
    assert PageOk(s, g, p, {});
  }

  lemma HasParent(s: Ix, g: Shape, c: int)
    requires Inv(s, g, {}, c) && c in g.info && c in s.pages && s.pages[c].parent != NO_PAGE
    ensures c != s.root && s.pages[c].parent in s.pages && s.pages[c].parent in g.info
  {
    assert UpOk(s, g, c);
  }

  lemma RootHasNoParentY(s: Ix, g: Shape, c: int)
    requires Inv(s, g, {}, c) && c in g.info && c in s.pages && s.pages[c].parent == NO_PAGE
    ensures c == s.root
  {
    assert UpOk(s, g, c) && Placed(s, g, NO_PAGE);
  }

  /** An internal page's first key is repeated above it. */
  lemma KeyAbove(s: Ix, g: Shape, c: int, rank: int)
    requires Inv(s, g, {}, NO_PAGE) && c in s.pages && !s.pages[c].isLeaf
    requires IsSlot(s, g, s.pages[c].parent, rank) && Child(s.pages[s.pages[c].parent], rank) == c
    ensures |s.pages[c].ents| > 0 && s.pages[s.pages[c].parent].ents[rank].key == s.pages[c].ents[0].key
  {
    assert KidOk(s, g, s.pages[c].parent, rank, NO_PAGE) && Placed(s, g, NO_PAGE);
  }

  /** One-shot credential a uniqueness probe leaves for the insert that follows it. */
  class LeafTicket {
    var valid: bool
    var owner: IxIndexHandle?
    var leaf: int
    var epoch: nat
    var key: Key

    constructor ()
      ensures !valid
    {
      valid, owner, leaf, epoch, key := false, null, NO_PAGE, 0, 0;
    }
  }

  /** The page for a new root is neither of the two halves. */
  lemma RootApart(s: Ix, g: Shape, p: int, n: int)
    requires IxNewRoot.RootFull(s, g, p, n)
    ensures var t := IxSplit.Split(s, p, n);
            && (t.firstFree != NO_PAGE ==> t.firstFree in t.pages) && AllocNo(t) != p && AllocNo(t) != n
            && p in t.pages && n in t.pages && |t.pages[p].ents| > 0 && |t.pages[n].ents| > 0
  {
    SplitKeepsParents(s, g, p, n);
    IxNewRoot.NewRootKeeps(s, g, p, n, s.pages[p]);
  }

  /** What a split of a page below the root comes to once its parent has the separator. */
  lemma LinkKeeps(s: Ix, g: Shape, p: int, n: int)
    requires Inv(s, g, {p}, NO_PAGE) && p in g.info && p in s.pages && p != s.root
    requires n in g.held && n in s.pages && |s.pages[p].ents| == MaxSize(s)
    requires s.pages[p].isLeaf ==> s.pages[p].next in s.pages
    ensures var q, i, t := s.pages[p].parent, g.info[p].idx, IxSplit.Split(s, p, n);
            && q in s.pages && q in g.info && q in t.pages && n in t.pages && q != n && p in t.pages
            && t.pages[p].parent == q && t.pages[q].ents == s.pages[q].ents
            && i < |t.pages[q].ents| && |t.pages[n].ents| > 0
            && g.info.Keys <= s.pages.Keys
            && var s', g' := IxSplit.Link(t, q, i, n), IxSplit.SplitShape(s, g, p, n);
            && Inv(s', g', {q}, NO_PAGE) && g'.held == g.held - {n} && g'.m == g.m
            && q in s'.pages && q in g'.info && s.root in g'.info && s.root in g.info
                && g'.info[s.root].level == g.info[s.root].level
            && g'.info[q].level == g.info[p].level + 1 <= g'.info[s.root].level
            && |s'.pages[q].ents| >= 2 && (q != s.root ==> |s'.pages[q].ents| >= MinSize(s'))
  {
    var q := s.pages[p].parent;
    CanSplitHere(s, g, p, n);
    SplitKeepsParents(s, g, p, n);
    IxSplit.CanSplitFacts(s, g, {p}, p, n);
    IxSplit.SplitKeeps(s, g, {p}, p, n);
    SplitLevels(s, g, p, n, q);
    assert PageOk(s, g, q, {p}) && UpOk(s, g, p);
    assert {p} - {p} + {q} == {q};
  }

  lemma CanSplitHere(s: Ix, g: Shape, p: int, n: int)
    requires Inv(s, g, {p}, NO_PAGE) && p in g.info && p in s.pages && p != s.root
    requires n in g.held && n in s.pages && |s.pages[p].ents| == MaxSize(s)
    ensures IxSplit.CanSplit(s, g, {p}, p, n)
  {
    assert UpOk(s, g, p) && PageOk(s, g, s.pages[p].parent, {p});
  }

  lemma SplitLevels(s: Ix, g: Shape, p: int, n: int, q: int)
    requires IxSplit.CanSplit(s, g, {p}, p, n) && q == s.pages[p].parent && g.info.Keys <= s.pages.Keys
    ensures s.root in g.info && q in g.info
    ensures var g' := IxSplit.SplitShape(s, g, p, n);
            && q in g'.info && s.root in g'.info
            && g'.info[s.root].level == g.info[s.root].level && g'.info[q].level == g.info[q].level
  {
    IxSplit.CanSplitFacts(s, g, {p}, p, n);
  }

  /** A page exempt only because it may have been full, and which is not, needs no exemption. */
  lemma OnlyTooFull(s: Ix, g: Shape, q: int)
    requires Inv(s, g, {q}, NO_PAGE) && q in g.info && q in s.pages
    requires |s.pages[q].ents| < MaxSize(s) && (q != s.root ==> |s.pages[q].ents| >= MinSize(s))
    requires q == s.root && !s.pages[q].isLeaf ==> |s.pages[q].ents| >= 2
    ensures Inv(s, g, {}, NO_PAGE)
  {
    DropExempt(s, g, {q}, NO_PAGE, q);
    assert {q} - {q} == {};
  }

  /** Splitting `p` leaves its parent, and where pages are allocated from, as they were. */
  lemma SplitKeepsParents(s: Ix, g: Shape, p: int, n: int)
    requires Inv(s, g, {p}, NO_PAGE) && p in g.info && p in s.pages && n in g.held && n in s.pages
    requires s.pages[p].isLeaf ==> s.pages[p].next in s.pages
    ensures n != p
    ensures var t := IxSplit.Split(s, p, n);
            && p in t.pages && t.pages[p].parent == s.pages[p].parent && n in t.pages
            && (s.pages[p].parent in s.pages ==>
                s.pages[p].parent in t.pages && t.pages[s.pages[p].parent].ents == s.pages[s.pages[p].parent].ents)
            && t.pages.Keys == s.pages.Keys && t.root == s.root && t.order == s.order && t.firstFree == s.firstFree
                && t.numPages == s.numPages
  {
    SplitApart(s, g, p, n);
    SplitPure(s, p, n);
  }

  lemma SplitApart(s: Ix, g: Shape, p: int, n: int)
    requires Inv(s, g, {p}, NO_PAGE) && p in g.info && p in s.pages && n in g.held && n in s.pages
    ensures n != p && s.pages[p].parent != p && s.pages[p].parent != n
    ensures !s.pages[p].isLeaf ==> !Names(s.pages[p].ents[IxSplit.Half(s.pages[p])..], p)
  {
    assert PageOk(s, g, p, {p}) && UpOk(s, g, p) && Placed(s, g, n) && Placed(s, g, p);
    if !s.pages[p].isLeaf {
      var h := IxSplit.Half(s.pages[p]);
      var kids := s.pages[p].ents[h..];
      forall i | 0 <= i < |kids| ensures kids[i].rid.pageNo != p {
        assert KidOk(s, g, p, h + i, NO_PAGE);
      }
    }
  }

  lemma SplitPure(s: Ix, p: int, n: int)
    requires p in s.pages && n in s.pages && n != p && s.pages[p].parent != p && s.pages[p].parent != n
    requires s.pages[p].isLeaf ==> s.pages[p].next in s.pages
    requires !s.pages[p].isLeaf ==> !Names(s.pages[p].ents[IxSplit.Half(s.pages[p])..], p)
    ensures var t := IxSplit.Split(s, p, n);
            && p in t.pages && t.pages[p].parent == s.pages[p].parent && n in t.pages
            && (s.pages[p].parent in s.pages ==>
                s.pages[p].parent in t.pages && t.pages[s.pages[p].parent].ents == s.pages[s.pages[p].parent].ents)
            && t.pages.Keys == s.pages.Keys && t.root == s.root && t.order == s.order && t.firstFree == s.firstFree
                && t.numPages == s.numPages
  {
  }

  lemma RootHasNoParent(s: Ix, g: Shape, x: set<int>, p: int)
    requires Inv(s, g, x, NO_PAGE) && p in g.info && p in s.pages
    ensures s.pages[p].parent == NO_PAGE <==> p == s.root
    ensures p != s.root ==> s.pages[p].parent in s.pages && s.pages[p].parent in g.info
  {
    assert UpOk(s, g, p);
    if p != s.root { assert PageOk(s, g, s.pages[p].parent, x); }
  }

  lemma ReparentNext(pages: map<int, Page>, kids: seq<Entry>, i: nat, n: int)
    requires i < |kids| && kids[i].rid.pageNo in pages
    ensures var c := kids[i].rid.pageNo; var before := Reparent(pages, kids[..i], n);
            Reparent(pages, kids[..i + 1], n) == before[c := before[c].(parent := n)]
  {
    var c := kids[i].rid.pageNo;
    var before, after := Reparent(pages, kids[..i], n), Reparent(pages, kids[..i + 1], n);
    forall u | u in pages ensures after[u] == before[c := before[c].(parent := n)][u] {
      if Names(kids[..i], u) {
        var j :| 0 <= j < i && kids[..i][j].rid.pageNo == u;
        assert kids[..i + 1][j].rid.pageNo == u;
      }
      if u == c { assert kids[..i + 1][i].rid.pageNo == u; }
      if Names(kids[..i + 1], u) && u != c {
        var j :| 0 <= j < i + 1 && kids[..i + 1][j].rid.pageNo == u;
        assert kids[..i][j].rid.pageNo == u;
      }
    }
  }

  lemma AllocFirst(s: Ix, g: Shape, x: set<int>, y: int)
    requires Inv(s, g, x, y)
    ensures s.firstFree != NO_PAGE ==> s.firstFree in s.pages
  {
    if |g.free| > 0 { assert FreeLink(s, g, 0); }
  }

  lemma NextIsPage(s: Ix, g: Shape, x: set<int>, p: int)
    requires Inv(s, g, x, NO_PAGE) && p in g.info && p in s.pages
    ensures s.pages[p].isLeaf ==> s.pages[p].next in s.pages && s.pages[p].next != p && s.pages[p].next !in g.held
  {
    if s.pages[p].isLeaf {
      assert PageOk(s, g, p, x);
      assert p in g.chain;
      var i :| 0 <= i < |g.chain| && g.chain[i] == p;
      assert LinkOk(s, g, i) && Placed(s, g, LEAF_HEADER_PAGE);
      if i + 1 < |g.chain| {
        assert LinkOk(s, g, i + 1) && Placed(s, g, g.chain[i + 1]);
        ChainLoUp(s, g, i, i + 1);
      }
    }
  }

  lemma KidsArePages(s: Ix, g: Shape, x: set<int>, p: int)
    requires Inv(s, g, x, NO_PAGE) && p in g.info && p in s.pages && !s.pages[p].isLeaf
    ensures forall i {:trigger s.pages[p].ents[i]} :: 0 <= i < |s.pages[p].ents| ==>
              s.pages[p].ents[i].rid.pageNo in s.pages && s.pages[p].ents[i].rid.pageNo != p
  {
    forall i | 0 <= i < |s.pages[p].ents|
      ensures s.pages[p].ents[i].rid.pageNo in s.pages && s.pages[p].ents[i].rid.pageNo != p
    {
      assert KidOk(s, g, p, i, NO_PAGE);
    }
  }
}
