/** Splitting a full page and linking the new right sibling into the parent. */
module IxSplit {
  import opened IxModel
  import opened IxSteps

  function Half(pg: Page): nat { |pg.ents| / 2 }

  /** `split`: the right half of `p` moves to `n`, which enters the leaf chain behind `p` or
      takes over the moved children. */
  function Split(s: Ix, p: int, n: int): Ix
    requires p in s.pages && n in s.pages && (s.pages[p].isLeaf ==> s.pages[p].next in s.pages)
  {
    var pg := s.pages[p];
    var h := Half(pg);
    var right := s.pages[n].(isLeaf := pg.isLeaf, parent := pg.parent, ents := pg.ents[h..]);
    var left := pg.(ents := pg.ents[..h]);
    if pg.isLeaf then
      var q1 := s.pages[n := right.(next := pg.next, prev := p)];
      var q2 := q1[pg.next := q1[pg.next].(prev := n)];
      s.(pages := q2[p := left.(next := n)],
         lastLeaf := if s.lastLeaf == p then n else s.lastLeaf)
    else
      s.(pages := Reparent(s.pages[n := right][p := left], pg.ents[h..], n))
  }

  /** Inserts `n` behind slot `j` of `q`, under the first key of `n`. */
  function Link(s: Ix, q: int, j: nat, n: int): Ix
    requires q in s.pages && n in s.pages && n != q && j < |s.pages[q].ents| && |s.pages[n].ents| > 0
  {
    var e := Entry(s.pages[n].ents[0].key, Rid(n, 0));
    s.(pages := s.pages[q := s.pages[q].(ents := InsertAt(s.pages[q].ents, j + 1, e))]
                       [n := s.pages[n].(parent := q)])
  }

  ghost predicate CanSplit(s: Ix, g: Shape, x: set<int>, p: int, n: int) {
    && Inv(s, g, x, NO_PAGE)
    && p in g.info && p in s.pages && p != s.root && p in x
    && |s.pages[p].ents| == MaxSize(s)
    && n in g.held && n in s.pages
    && s.pages[p].parent in s.pages && |s.pages[s.pages[p].parent].ents| < MaxSize(s)
  }

  lemma CanSplitFacts(s: Ix, g: Shape, x: set<int>, p: int, n: int)
    requires CanSplit(s, g, x, p, n)
    ensures g.info.Keys <= s.pages.Keys
    ensures s.pages[p].parent in g.info && s.pages[p].parent != p && s.pages[p].parent != n && p != n
    ensures n !in g.info && INIT_ROOT_PAGE <= n < s.numPages
    ensures !s.pages[s.pages[p].parent].isLeaf
    ensures g.info[p].idx < |s.pages[s.pages[p].parent].ents|
    ensures Child(s.pages[s.pages[p].parent], g.info[p].idx) == p
    ensures MinSize(s) >= 2 && Half(s.pages[p]) == MinSize(s)
    ensures g.info[s.pages[p].parent].level == g.info[p].level + 1
  {
    assert PageOk(s, g, p, x) && UpOk(s, g, p) && Placed(s, g, n) && Placed(s, g, p);
    forall c | c in g.info ensures c in s.pages { assert PageOk(s, g, c, x); }
  }

  // ---------------------------------------------------------------- the shape after the split

  ghost function SplitKey(s: Ix, p: int): Key
    requires p in s.pages && |s.pages[p].ents| >= 1
  {
    s.pages[p].ents[Half(s.pages[p])].key
  }

  ghost predicate Moved(s: Ix, g: Shape, p: int, c: int)
    requires p in s.pages
  {
    c in g.info && c in s.pages && s.pages[c].parent == p && g.info[c].idx >= Half(s.pages[p])
  }

  ghost function SplitInfo(s: Ix, g: Shape, p: int, n: int, c: int): Info
    requires p in s.pages && p in g.info && |s.pages[p].ents| >= 1
    requires c == n || (c in g.info && c in s.pages)
  {
    var f, k, h := g.info[p], SplitKey(s, p), Half(s.pages[p]);
    if c == n then Info(f.level, f.idx + 1, At(k), f.hi)
    else if c == p then f.(hi := At(k))
    else if Moved(s, g, p, c) then g.info[c].(idx := g.info[c].idx - h)
    else if s.pages[c].parent == s.pages[p].parent && g.info[c].idx > f.idx then g.info[c].(idx := g.info[c].idx + 1)
    else g.info[c]
  }

  ghost function SplitOwn(s: Ix, g: Shape, p: int, n: int): map<Key, Sep>
    requires p in s.pages && p in g.info && |s.pages[p].ents| >= 1
  {
    var k := SplitKey(s, p);
    map a | a in g.own.Keys + {k} ::
      if a == k then Sep(s.pages[p].parent, g.info[p].level + 1)
      else if g.own[a].page == p && a > k then g.own[a].(page := n) else g.own[a]
  }

  ghost function After(chain: seq<int>, p: int, n: int): seq<int> {
    if chain == [] then []
    else if chain[0] == p then [p, n] + chain[1..]
    else [chain[0]] + After(chain[1..], p, n)
  }

  ghost function SplitShape(s: Ix, g: Shape, p: int, n: int): Shape
    requires p in s.pages && p in g.info && |s.pages[p].ents| >= 1 && g.info.Keys <= s.pages.Keys
  {
    g.(info := map c | c in g.info.Keys + {n} :: SplitInfo(s, g, p, n, c),
       own := SplitOwn(s, g, p, n),
       chain := if s.pages[p].isLeaf then After(g.chain, p, n) else g.chain,
       held := g.held - {n})
  }

  /** The page `c` once `n` is linked behind `p`. */
  ghost function SplitPage(s: Ix, g: Shape, p: int, n: int, c: int): Page
    requires p in s.pages && n in s.pages && p in g.info && |s.pages[p].ents| >= 2 && c in s.pages
    requires s.pages[p].parent in s.pages
    requires g.info[p].idx < |s.pages[s.pages[p].parent].ents|
  {
    var pg, q := s.pages[p], s.pages[p].parent;
    if c == p then
      pg.(ents := pg.ents[..Half(pg)], next := if pg.isLeaf then n else pg.next)
    else if c == n then
      s.pages[n].(isLeaf := pg.isLeaf, parent := q, ents := pg.ents[Half(pg)..],
                  next := if pg.isLeaf then pg.next else s.pages[n].next,
                  prev := if pg.isLeaf then p else s.pages[n].prev)
    else if c == q then
      s.pages[q].(ents := InsertAt(s.pages[q].ents, g.info[p].idx + 1, Entry(SplitKey(s, p), Rid(n, 0))))
    else if Moved(s, g, p, c) then s.pages[c].(parent := n)
    else if pg.isLeaf && c == pg.next then s.pages[c].(prev := n)
    else s.pages[c]
  }

  ghost predicate SplitCtx(s: Ix, g: Shape, x: set<int>, p: int, n: int, s': Ix, g': Shape) {
    && CanSplit(s, g, x, p, n)
    && g.info.Keys <= s.pages.Keys
    && g.info[p].idx < |s.pages[s.pages[p].parent].ents|
    && MinSize(s) >= 2
    && g' == SplitShape(s, g, p, n)
    && s'.pages == (map c | c in s.pages :: SplitPage(s, g, p, n, c))
    && s' == s.(pages := s'.pages,
                lastLeaf := if s.pages[p].isLeaf && s.lastLeaf == p then n else s.lastLeaf)
  }

  // ---------------------------------------------------------------- the code computes that shape

  /** The children named by the right half are exactly the pages `Moved` describes. */
  lemma NamesMoved(s: Ix, g: Shape, x: set<int>, p: int, n: int, c: int)
    requires CanSplit(s, g, x, p, n) && !s.pages[p].isLeaf
    ensures Names(s.pages[p].ents[Half(s.pages[p])..], c) <==> Moved(s, g, p, c)
  {
    CanSplitFacts(s, g, x, p, n);
    var pg := s.pages[p];
    var h := Half(pg);
    var kids := pg.ents[h..];
    if Names(kids, c) {
      var i :| 0 <= i < |kids| && kids[i].rid.pageNo == c;
      assert KidOk(s, g, p, h + i, NO_PAGE);
    }
    if Moved(s, g, p, c) {
      assert UpOk(s, g, c);
      assert UpOk(s, g, p);
      assert PageOk(s, g, p, x);
      assert kids[g.info[c].idx - h].rid.pageNo == c;
    }
  }

  lemma MovedFacts(s: Ix, g: Shape, x: set<int>, p: int, n: int, c: int)
    requires CanSplit(s, g, x, p, n) && Moved(s, g, p, c)
    ensures c != p && c != n && c != s.pages[p].parent && c != s.root && !s.pages[p].isLeaf
    ensures g.info[c].idx < |s.pages[p].ents| && Child(s.pages[p], g.info[c].idx) == c
    ensures g.info[c].level + 1 == g.info[p].level
  {
    CanSplitFacts(s, g, x, p, n);
    assert UpOk(s, g, c) && UpOk(s, g, p) && PageOk(s, g, p, x);
  }

  /** Where the leaf chain leads next is a page, and none of those around the split. */
  lemma NextFacts(s: Ix, g: Shape, x: set<int>, p: int, n: int)
    requires CanSplit(s, g, x, p, n) && s.pages[p].isLeaf
    ensures var t := s.pages[p].next; t in s.pages && t != p && t != n && t != s.pages[p].parent
  {
    CanSplitFacts(s, g, x, p, n);
    assert PageOk(s, g, p, x) && PageOk(s, g, s.pages[p].parent, x);
    assert p in g.chain;
    var i :| 0 <= i < |g.chain| && g.chain[i] == p;
    assert LinkOk(s, g, i);
    assert Placed(s, g, n);
    if i + 1 < |g.chain| {
      assert LinkOk(s, g, i + 1) && ChainUp(g, i, i + 1);
    }
  }

  lemma SplitPages(s: Ix, g: Shape, x: set<int>, p: int, n: int)
    requires CanSplit(s, g, x, p, n)
    ensures g.info.Keys <= s.pages.Keys
    ensures s.pages[p].isLeaf ==> s.pages[p].next in s.pages
    ensures var s1 := Split(s, p, n);
            && s.pages[p].parent in s1.pages && n in s1.pages && n != s.pages[p].parent
            && s1.pages[s.pages[p].parent] == s.pages[s.pages[p].parent]
            && |s1.pages[n].ents| > 0
            && g.info[p].idx < |s1.pages[s.pages[p].parent].ents|
            && SplitCtx(s, g, x, p, n, Link(s1, s.pages[p].parent, g.info[p].idx, n), SplitShape(s, g, p, n))
  {
    CanSplitFacts(s, g, x, p, n);
    var pg, q := s.pages[p], s.pages[p].parent;
    if pg.isLeaf { NextFacts(s, g, x, p, n); } else { NamesMoved(s, g, x, p, n, q); }
    if Moved(s, g, p, q) { MovedFacts(s, g, x, p, n, q); }
    var s1 := Split(s, p, n);
    assert s1.pages[q] == s.pages[q];
    assert s1.pages[n].ents == pg.ents[Half(pg)..];
    var s' := Link(s1, q, g.info[p].idx, n);
    forall c | c in s.pages ensures s'.pages[c] == SplitPage(s, g, p, n, c) {
      if !pg.isLeaf { NamesMoved(s, g, x, p, n, c); }
      if Moved(s, g, p, c) { MovedFacts(s, g, x, p, n, c); }
    }
    assert s'.pages.Keys == s.pages.Keys;
  }

  // ---------------------------------------------------------------- the shape is a tree again

  /** The key that moves up lies strictly inside the interval of the split page. */
  lemma SplitKeyInside(s: Ix, g: Shape, x: set<int>, p: int, n: int)
    requires CanSplit(s, g, x, p, n)
    ensures |s.pages[p].ents| >= 2
    ensures Lt(g.info[p].lo, At(SplitKey(s, p))) && Lt(At(SplitKey(s, p)), g.info[p].hi)
  {
    CanSplitFacts(s, g, x, p, n);
    assert PageOk(s, g, p, x);
    var pg := s.pages[p];
    var h := Half(pg);
    assert Below(g.info[p].lo, pg.ents[h].key) && Above(g.info[p].hi, pg.ents[h].key);
    if pg.isLeaf {
      assert pg.ents[0].key < pg.ents[h].key;
      assert Below(g.info[p].lo, pg.ents[0].key);
    }
  }

  lemma SplitPagesOk(s: Ix, g: Shape, x: set<int>, p: int, n: int, s': Ix, g': Shape)
    requires SplitCtx(s, g, x, p, n, s', g')
    ensures PagesOk(s', g', x - {p} + {s.pages[p].parent})
  {
    var q := s.pages[p].parent;
    var x' := x - {p} + {q};
    forall c | c in g'.info ensures PageOk(s', g', c, x') {
      if c == q {
        SplitParentOk(s, g, x, p, n, s', g');
      } else if c == n || c == p {
        SplitHalfOk(s, g, x, p, n, s', g', c);
      } else {
        SplitPageOther(s, g, x, p, n, s', g', c);
      }
    }
  }

  lemma SplitPageOther(s: Ix, g: Shape, x: set<int>, p: int, n: int, s': Ix, g': Shape, c: int)
    requires SplitCtx(s, g, x, p, n, s', g') && p in s.pages && c in g'.info && c != p && c != n
             && c != s.pages[p].parent
    ensures PageOk(s', g', c, x - {p} + {s.pages[p].parent})
  {
    CanSplitFacts(s, g, x, p, n);
    assert PageOk(s, g, c, x);
  }

  lemma SplitHalfOk(s: Ix, g: Shape, x: set<int>, p: int, n: int, s': Ix, g': Shape, c: int)
    requires SplitCtx(s, g, x, p, n, s', g') && p in s.pages && c in g'.info && (c == p || c == n)
    ensures PageOk(s', g', c, x - {p} + {s.pages[p].parent})
  {
    CanSplitFacts(s, g, x, p, n);
    SplitKeyInside(s, g, x, p, n);
    assert PageOk(s, g, p, x);
  }

  /** Inserting a separator behind slot `j` keeps the slots from 1 on sorted and inside. */
  lemma InsertSeparator(ents: seq<Entry>, j: nat, e: Entry, lo: Bound, hi: Bound)
    requires j < |ents|
    requires Sorted(ents, 1) && Within(ents, 1, lo, hi)
    requires forall i {:trigger ents[i]} :: 1 <= i < |ents| ==> lo != At(ents[i].key)
    requires Lt(lo, At(e.key)) && Lt(At(e.key), hi)
    requires j > 0 ==> ents[j].key < e.key
    requires j + 1 < |ents| ==> e.key < ents[j + 1].key
    ensures var es := InsertAt(ents, j + 1, e);
            && Sorted(es, 1) && Within(es, 1, lo, hi)
            && (forall i {:trigger es[i]} :: 1 <= i < |es| ==> lo != At(es[i].key))
  {
    var es := InsertAt(ents, j + 1, e);
    forall i | 1 <= i < |es| ensures Below(lo, es[i].key) && Above(hi, es[i].key) && lo != At(es[i].key) {
      SeparatorAt(ents, j, e, i);
    }
    forall i, k | 1 <= i < k < |es| ensures es[i].key < es[k].key {
      SeparatorAt(ents, j, e, i);
      SeparatorAt(ents, j, e, k);
    }
  }

  /** Slots before the new separator keep their place, those behind it move up by one. */
  lemma SeparatorAt(ents: seq<Entry>, j: nat, e: Entry, i: nat)
    requires j < |ents| && Sorted(ents, 1) && 1 <= i <= |ents|
    requires j > 0 ==> ents[j].key < e.key
    requires j + 1 < |ents| ==> e.key < ents[j + 1].key
    ensures var es := InsertAt(ents, j + 1, e);
            && (i <= j ==> es[i] == ents[i] && es[i].key < e.key)
            && (i == j + 1 ==> es[i] == e)
            && (i > j + 1 ==> es[i] == ents[i - 1] && e.key < es[i].key)
  {
    if i < j { assert ents[i].key < ents[j].key; }
    if i > j + 2 { assert ents[j + 1].key < ents[i - 1].key; }
  }

  /** The key that moves up fits between its two neighbours in the parent. */
  lemma SplitKeyFits(s: Ix, g: Shape, x: set<int>, p: int, n: int)
    requires CanSplit(s, g, x, p, n)
    ensures |s.pages[p].ents| >= 2 && s.pages[p].parent in g.info
    ensures var q, j, k := s.pages[p].parent, g.info[p].idx, SplitKey(s, p);
            && j < |s.pages[q].ents|
            && Lt(g.info[q].lo, At(k)) && Lt(At(k), g.info[q].hi)
            && (j > 0 ==> s.pages[q].ents[j].key < k)
            && (j + 1 < |s.pages[q].ents| ==> k < s.pages[q].ents[j + 1].key)
  {
    CanSplitFacts(s, g, x, p, n);
    SplitKeyInside(s, g, x, p, n);
    var q, j := s.pages[p].parent, g.info[p].idx;
    assert PageOk(s, g, q, x);
    assert KidOk(s, g, q, j, NO_PAGE);
    var ents := s.pages[q].ents;
    if j > 0 { assert Below(g.info[q].lo, ents[j].key); }
    if j + 1 < |ents| { assert Above(g.info[q].hi, ents[j + 1].key); }
  }

  lemma SplitParentOk(s: Ix, g: Shape, x: set<int>, p: int, n: int, s': Ix, g': Shape)
    requires SplitCtx(s, g, x, p, n, s', g')
    ensures PageOk(s', g', s.pages[p].parent, x - {p} + {s.pages[p].parent})
  {
    CanSplitFacts(s, g, x, p, n);
    SplitKeyFits(s, g, x, p, n);
    var q := s.pages[p].parent;
    assert PageOk(s, g, q, x);
    InsertSeparator(s.pages[q].ents, g.info[p].idx, Entry(SplitKey(s, p), Rid(n, 0)), g.info[q].lo, g.info[q].hi);
    assert !Moved(s, g, p, q) by { if Moved(s, g, p, q) { MovedFacts(s, g, x, p, n, q); } }
    assert g'.info[q].lo == g.info[q].lo && g'.info[q].hi == g.info[q].hi && g'.info[q].level == g.info[q].level;
    assert g'.info[s.root].level == g.info[s.root].level;
  }

  lemma SplitUpsOk(s: Ix, g: Shape, x: set<int>, p: int, n: int, s': Ix, g': Shape)
    requires SplitCtx(s, g, x, p, n, s', g')
    ensures UpsOk(s', g')
  {
    forall c | c in g'.info ensures UpOk(s', g', c) {
      SplitUp(s, g, x, p, n, s', g', c);
    }
  }

  lemma SplitUp(s: Ix, g: Shape, x: set<int>, p: int, n: int, s': Ix, g': Shape, c: int)
    requires SplitCtx(s, g, x, p, n, s', g') && c in g'.info
    ensures UpOk(s', g', c)
  {
    CanSplitFacts(s, g, x, p, n);
    var q := s.pages[p].parent;
    if c != n { assert UpOk(s, g, c); }
    if c == n || c == p || (c != s.root && s.pages[c].parent == q) {
      SplitUpUnderParent(s, g, x, p, n, s', g', c);
    } else if Moved(s, g, p, c) {
      MovedFacts(s, g, x, p, n, c);
    }
  }

  lemma SplitUpUnderParent(s: Ix, g: Shape, x: set<int>, p: int, n: int, s': Ix, g': Shape, c: int)
    requires SplitCtx(s, g, x, p, n, s', g') && c in g'.info && p in s.pages
    requires c == n || c == p || (c != s.root && c in g.info && c in s.pages && s.pages[c].parent == s.pages[p].parent)
    ensures UpOk(s', g', c)
  {
    CanSplitFacts(s, g, x, p, n);
    var q, j := s.pages[p].parent, g.info[p].idx;
    var e := Entry(SplitKey(s, p), Rid(n, 0));
    var ents := s.pages[q].ents;
    assert s'.pages[q].ents == InsertAt(ents, j + 1, e);
    if c == n {
      InsertAtSlots(ents, j + 1, e, j + 1);
    } else if c == p {
      InsertAtSlots(ents, j + 1, e, j);
    } else {
      SplitUpSibling(s, g, x, p, n, s', g', c);
    }
  }

  lemma SplitUpSibling(s: Ix, g: Shape, x: set<int>, p: int, n: int, s': Ix, g': Shape, c: int)
    requires SplitCtx(s, g, x, p, n, s', g') && c in g'.info && p in s.pages
    requires c != p && c != s.root && c in g.info && c in s.pages && s.pages[c].parent == s.pages[p].parent
    ensures UpOk(s', g', c)
  {
    CanSplitFacts(s, g, x, p, n);
    var q, j := s.pages[p].parent, g.info[p].idx;
    var e := Entry(SplitKey(s, p), Rid(n, 0));
    var ents := s.pages[q].ents;
    assert s'.pages[q].ents == InsertAt(ents, j + 1, e);
    assert UpOk(s, g, c) && g.info[c].idx != j;
    SplitSibling(s, g, x, p, n, s', g', g.info[c].idx);
    InsertAtSlots(ents, j + 1, e, g'.info[c].idx);
  }

  lemma SplitKidsOk(s: Ix, g: Shape, x: set<int>, p: int, n: int, s': Ix, g': Shape)
    requires SplitCtx(s, g, x, p, n, s', g')
    ensures KidsOk(s', g', NO_PAGE)
  {
    forall u, i | IsSlot(s', g', u, i) ensures KidOk(s', g', u, i, NO_PAGE) {
      CanSplitFacts(s, g, x, p, n);
      if u == p || u == n {
        SplitKidsHalves(s, g, x, p, n, s', g', u, i);
      } else if u == s.pages[p].parent {
        SplitKidsParent(s, g, x, p, n, s', g', i);
      } else {
        SplitKidsOther(s, g, x, p, n, s', g', u, i);
      }
    }
  }

  lemma SplitKidsHalves(s: Ix, g: Shape, x: set<int>, p: int, n: int, s': Ix, g': Shape, u: int, i: int)
    requires SplitCtx(s, g, x, p, n, s', g') && IsSlot(s', g', u, i) && (u == p || u == n)
    ensures KidOk(s', g', u, i, NO_PAGE)
  {
    CanSplitFacts(s, g, x, p, n);
    var pg, h := s.pages[p], Half(s.pages[p]);
    var o := if u == p then i else i + h;
    assert PageOk(s, g, p, x) && UpOk(s, g, p);
    assert KidOk(s, g, p, o, NO_PAGE);
    var c := Child(pg, o);
    assert PageOk(s, g, c, x);
    assert Moved(s, g, p, c) <==> u == n;
  }

  lemma SplitKidsParent(s: Ix, g: Shape, x: set<int>, p: int, n: int, s': Ix, g': Shape, i: int)
    requires SplitCtx(s, g, x, p, n, s', g') && IsSlot(s', g', s.pages[p].parent, i)
    ensures KidOk(s', g', s.pages[p].parent, i, NO_PAGE)
  {
    if g.info[p].idx <= i <= g.info[p].idx + 1 {
      SplitKidsParentHere(s, g, x, p, n, s', g', i);
    } else {
      SplitKidsParentThere(s, g, x, p, n, s', g', i);
    }
  }

  lemma SplitKidsParentHere(s: Ix, g: Shape, x: set<int>, p: int, n: int, s': Ix, g': Shape, i: int)
    requires SplitCtx(s, g, x, p, n, s', g') && IsSlot(s', g', s.pages[p].parent, i)
    requires g.info[p].idx <= i <= g.info[p].idx + 1
    ensures KidOk(s', g', s.pages[p].parent, i, NO_PAGE)
  {
    CanSplitFacts(s, g, x, p, n);
    var q, j := s.pages[p].parent, g.info[p].idx;
    InsertAtSlots(s.pages[q].ents, j + 1, Entry(SplitKey(s, p), Rid(n, 0)), i);
    assert PageOk(s, g, p, x);
    assert KidOk(s, g, q, j, NO_PAGE);
  }

  lemma SplitKidsParentThere(s: Ix, g: Shape, x: set<int>, p: int, n: int, s': Ix, g': Shape, i: int)
    requires SplitCtx(s, g, x, p, n, s', g') && IsSlot(s', g', s.pages[p].parent, i)
    requires i < g.info[p].idx || i > g.info[p].idx + 1
    ensures KidOk(s', g', s.pages[p].parent, i, NO_PAGE)
  {
    CanSplitFacts(s, g, x, p, n);
    var q, j := s.pages[p].parent, g.info[p].idx;
    InsertAtSlots(s.pages[q].ents, j + 1, Entry(SplitKey(s, p), Rid(n, 0)), i);
    var o := if i <= j then i else i - 1;
    assert KidOk(s, g, q, o, NO_PAGE);
    SplitSibling(s, g, x, p, n, s', g', o);
  }

  lemma SplitSibling(s: Ix, g: Shape, x: set<int>, p: int, n: int, s': Ix, g': Shape, o: int)
    requires SplitCtx(s, g, x, p, n, s', g') && IsSlot(s, g, s.pages[p].parent, o) && o != g.info[p].idx
    ensures var c := Child(s.pages[s.pages[p].parent], o);
            && c in g'.info && c in g.info && c in s.pages && c in s'.pages
            && g'.info[c] == g.info[c].(idx := if o > g.info[p].idx then o + 1 else o)
            && (s'.pages[c] == s.pages[c] || (s.pages[p].isLeaf && s'.pages[c] == s.pages[c].(prev := n)))
  {
    CanSplitFacts(s, g, x, p, n);
    var q := s.pages[p].parent;
    assert KidOk(s, g, q, o, NO_PAGE);
    assert UpOk(s, g, p);
    var c := Child(s.pages[q], o);
    assert c != p && c != q && !Moved(s, g, p, c);
  }

  lemma InsertAtSlots(ents: seq<Entry>, pos: nat, e: Entry, i: nat)
    requires pos <= |ents| && i <= |ents|
    ensures |InsertAt(ents, pos, e)| == |ents| + 1
    ensures InsertAt(ents, pos, e)[i] == (if i < pos then ents[i] else if i == pos then e else ents[i - 1])
    ensures i < |ents| ==>
              InsertAt(ents, pos, e)[i + 1]
              == (if i + 1 < pos then ents[i + 1] else if i + 1 == pos then e else ents[i])
  {
  }

  lemma SplitKidsOther(s: Ix, g: Shape, x: set<int>, p: int, n: int, s': Ix, g': Shape, u: int, i: int)
    requires SplitCtx(s, g, x, p, n, s', g') && IsSlot(s', g', u, i)
    requires u != p && u != n && u != s.pages[p].parent
    ensures KidOk(s', g', u, i, NO_PAGE)
  {
    CanSplitFacts(s, g, x, p, n);
    var q := s.pages[p].parent;
    assert PageOk(s, g, p, x) && UpOk(s, g, p) && PageOk(s, g, q, x);
    assert KidOk(s, g, u, i, NO_PAGE);
    var c := Child(s.pages[u], i);
    if c != q {
      assert c != p && !Moved(s, g, p, c) && c != n;
    }
  }

  lemma SplitOwnHere(s: Ix, g: Shape, x: set<int>, p: int, n: int, s': Ix, g': Shape, u: int, i: int)
    requires SplitCtx(s, g, x, p, n, s', g') && IsSlot(s', g', u, i) && 1 <= i && (u == p || u == n)
    ensures OwnAt(s', g', u, i)
  {
    CanSplitFacts(s, g, x, p, n);
    var h := Half(s.pages[p]);
    assert PageOk(s, g, p, x);
    assert OwnAt(s, g, p, if u == p then i else i + h);
    assert OwnAt(s, g, p, h);
  }

  lemma SplitOwnAt(s: Ix, g: Shape, x: set<int>, p: int, n: int, s': Ix, g': Shape, u: int, i: int)
    requires SplitCtx(s, g, x, p, n, s', g') && IsSlot(s', g', u, i) && 1 <= i
    ensures OwnAt(s', g', u, i)
  {
    CanSplitFacts(s, g, x, p, n);
    var pg, q, j, h, k := s.pages[p], s.pages[p].parent, g.info[p].idx, Half(s.pages[p]), SplitKey(s, p);
    assert PageOk(s, g, p, x) && PageOk(s, g, q, x);
    if u == p || u == n {
      SplitOwnHere(s, g, x, p, n, s', g', u, i);
    } else {
      if u == q && i == j + 1 { return; }
      var o := if u == q && i > j + 1 then i - 1 else i;
      assert OwnAt(s, g, u, o);
      var a := s.pages[u].ents[o].key;
      if a == k { SplitKeyFree(s, g, x, p, n); }
    }
  }

  /** The key that moves up was not a separator anywhere but in the split page. */
  lemma SplitKeyFree(s: Ix, g: Shape, x: set<int>, p: int, n: int)
    requires CanSplit(s, g, x, p, n)
    ensures |s.pages[p].ents| >= 1
    ensures SplitKey(s, p) in g.own ==> g.own[SplitKey(s, p)] == Sep(p, g.info[p].level) && !s.pages[p].isLeaf
  {
    CanSplitFacts(s, g, x, p, n);
    var pg, k := s.pages[p], SplitKey(s, p);
    assert PageOk(s, g, p, x);
    if pg.isLeaf {
      assert pg.ents[0].key < k;
      if k in g.own { OutsideOf(s, g, k, p); }
    } else {
      assert OwnAt(s, g, p, Half(pg));
    }
  }

  lemma SplitOutside(s: Ix, g: Shape, x: set<int>, p: int, n: int, s': Ix, g': Shape, a: Key, u: int)
    requires SplitCtx(s, g, x, p, n, s', g') && a in g'.own && u in g'.info && g'.info[u].level == 0
    ensures Outside(g', a, u)
  {
    CanSplitFacts(s, g, x, p, n);
    var pg, k := s.pages[p], SplitKey(s, p);
    assert PageOk(s, g, p, x);
    if pg.isLeaf {
      if a != k {
        assert Outside(g, a, if u == n then p else u);
      } else if u != p && u != n {
        if !Outside(g', a, u) {
          assert Covers(g, u, k) && Covers(g, p, k);
          LeafUnique(s, g, p, u, k);
        }
      }
    } else {
      SplitKeyFree(s, g, x, p, n);
      assert OwnAt(s, g, p, Half(pg));
      assert u != n && u != p;
      assert Outside(g, a, u);
    }
  }

  lemma SplitOwnOk(s: Ix, g: Shape, x: set<int>, p: int, n: int, s': Ix, g': Shape)
    requires SplitCtx(s, g, x, p, n, s', g')
    ensures OwnOk(s', g')
  {
    forall u, i | IsSlot(s', g', u, i) && 1 <= i ensures OwnAt(s', g', u, i) {
      SplitOwnAt(s, g, x, p, n, s', g', u, i);
    }
    forall a, u | a in g'.own && u in g'.info && g'.info[u].level == 0 ensures Outside(g', a, u) {
      SplitOutside(s, g, x, p, n, s', g', a, u);
    }
    forall u | u in g'.info ensures Fenced(g', u) {
      CanSplitFacts(s, g, x, p, n);
      SplitKeyFree(s, g, x, p, n);
      SplitKeyInside(s, g, x, p, n);
      assert Fenced(g, p);
      if u != n { assert Fenced(g, u); }
    }
  }

  lemma SplitFreeOk(s: Ix, g: Shape, x: set<int>, p: int, n: int, s': Ix, g': Shape)
    requires SplitCtx(s, g, x, p, n, s', g')
    ensures FreeOk(s', g')
  {
    CanSplitFacts(s, g, x, p, n);
    forall i | 0 <= i < |g'.free| ensures FreeLink(s', g', i) {
      assert FreeLink(s, g, i);
      assert Placed(s, g, g.free[i]) && Placed(s, g, n);
      if s.pages[p].isLeaf { NextFacts(s, g, x, p, n); }
    }
    forall c ensures Placed(s', g', c) {
      assert Placed(s, g, c);
    }
  }

  // ---------------------------------------------------------------- leaf chain and contents

  lemma AfterSlots(chain: seq<int>, p: int, n: int, i: nat)
    requires i < |chain| && chain[i] == p
    requires forall j :: 0 <= j < i ==> chain[j] != p
    ensures After(chain, p, n) == chain[..i + 1] + [n] + chain[i + 1..]
  {
    if i > 0 {
      AfterSlots(chain[1..], p, n, i - 1);
      assert chain == [chain[0]] + chain[1..];
    }
  }

  lemma SplitIns(s: Ix, g: Shape, x: set<int>, p: int, n: int, s': Ix, g': Shape) returns (m: int)
    requires SplitCtx(s, g, x, p, n, s', g') && s.pages[p].isLeaf
    ensures ChainIns(g, g', p, n, m)
  {
    assert PageOk(s, g, p, x);
    assert p in g.chain;
    m :| 0 <= m < |g.chain| && g.chain[m] == p;
    forall j | 0 <= j < m ensures g.chain[j] != p { ChainLoUp(s, g, j, m); }
    AfterSlots(g.chain, p, n, m);
  }

  lemma SplitLeafChain(s: Ix, g: Shape, x: set<int>, p: int, n: int, s': Ix, g': Shape)
    requires SplitCtx(s, g, x, p, n, s', g') && s.pages[p].isLeaf
    ensures ChainOk(s', g')
  {
    var m := SplitIns(s, g, x, p, n, s', g');
    forall i | 0 <= i < |g'.chain| ensures LinkOk(s', g', i) {
      SplitLink(s, g, x, p, n, s', g', m, i);
    }
    forall i, j | 0 <= i < j < |g'.chain| ensures ChainUp(g', i, j) {
      SplitChainUp(s, g, x, p, n, s', g', m, i, j);
    }
    forall c | c in g'.info && g'.info[c].level == 0 ensures c in g'.chain {
      SplitInChain(s, g, x, p, n, s', g', m, c);
    }
    SplitEnds(s, g, x, p, n, s', g', m);
  }

  lemma SplitInChain(s: Ix, g: Shape, x: set<int>, p: int, n: int, s': Ix, g': Shape, m: int, c: int)
    requires SplitCtx(s, g, x, p, n, s', g') && ChainIns(g, g', p, n, m)
    requires c in g'.info && g'.info[c].level == 0
    ensures c in g'.chain
  {
    if c == n { assert g'.chain[m + 1] == n; }
    else {
      assert c in g.chain;
      var i :| 0 <= i < |g.chain| && g.chain[i] == c;
      assert g'.chain[if i <= m then i else i + 1] == c;
    }
  }

  lemma SplitEnds(s: Ix, g: Shape, x: set<int>, p: int, n: int, s': Ix, g': Shape, m: int)
    requires SplitCtx(s, g, x, p, n, s', g') && s.pages[p].isLeaf && ChainIns(g, g', p, n, m)
    ensures g'.chain[0] == s'.firstLeaf && g'.chain[|g'.chain| - 1] == s'.lastLeaf
    ensures LEAF_HEADER_PAGE in s'.pages
    ensures s'.pages[LEAF_HEADER_PAGE] == s.pages[LEAF_HEADER_PAGE].(prev := s'.lastLeaf)
  {
    CanSplitFacts(s, g, x, p, n);
    assert LinkOk(s, g, m) && Placed(s, g, LEAF_HEADER_PAGE);
    assert PageOk(s, g, p, x) && PageOk(s, g, s.pages[p].parent, x);
    if m + 1 < |g.chain| {
      ChainLoUp(s, g, m, |g.chain| - 1);
      assert LinkOk(s, g, m + 1) && PageOk(s, g, g.chain[m + 1], x);
    }
  }

  ghost predicate ChainIns(g: Shape, g': Shape, p: int, n: int, m: int) {
    && 0 <= m < |g.chain| && g.chain[m] == p
    && g'.chain == g.chain[..m + 1] + [n] + g.chain[m + 1..]
  }

  lemma SplitLink(s: Ix, g: Shape, x: set<int>, p: int, n: int, s': Ix, g': Shape, m: int, i: int)
    requires SplitCtx(s, g, x, p, n, s', g') && s.pages[p].isLeaf
    requires ChainIns(g, g', p, n, m) && 0 <= i < |g'.chain|
    ensures LinkOk(s', g', i)
  {
    if i == m || i == m + 1 {
      SplitLinkHere(s, g, x, p, n, s', g', m, i);
    } else {
      SplitLinkOther(s, g, x, p, n, s', g', m, i);
    }
  }

  lemma SplitLinkOther(s: Ix, g: Shape, x: set<int>, p: int, n: int, s': Ix, g': Shape, m: int, i: int)
    requires SplitCtx(s, g, x, p, n, s', g') && s.pages[p].isLeaf
    requires ChainIns(g, g', p, n, m) && 0 <= i < |g'.chain| && i != m && i != m + 1
    ensures LinkOk(s', g', i)
  {
    var o := if i < m then i else i - 1;
    assert LinkOk(s, g, o);
    SplitOtherLeaf(s, g, x, p, n, s', g', m, o);
    if o + 1 == m {
      assert g'.chain[i + 1] == p && g'.info[p].lo == g.info[p].lo by { CanSplitFacts(s, g, x, p, n); }
    } else if o + 1 < |g.chain| {
      SplitOtherLeaf(s, g, x, p, n, s', g', m, o + 1);
    }
  }

  lemma SplitLinkHere(s: Ix, g: Shape, x: set<int>, p: int, n: int, s': Ix, g': Shape, m: int, i: int)
    requires SplitCtx(s, g, x, p, n, s', g') && s.pages[p].isLeaf
    requires ChainIns(g, g', p, n, m) && (i == m || i == m + 1)
    ensures LinkOk(s', g', i)
  {
    CanSplitFacts(s, g, x, p, n);
    assert PageOk(s, g, p, x);
    assert LinkOk(s, g, m);
    if m + 1 < |g.chain| { SplitOtherLeaf(s, g, x, p, n, s', g', m, m + 1); }
  }

  lemma SplitOtherLeaf(s: Ix, g: Shape, x: set<int>, p: int, n: int, s': Ix, g': Shape, m: int, o: int)
    requires SplitCtx(s, g, x, p, n, s', g') && s.pages[p].isLeaf
    requires ChainIns(g, g', p, n, m) && 0 <= o < |g.chain| && o != m
    ensures var c := g.chain[o];
            && c in g.info && c in g'.info && c in s.pages && c in s'.pages && c != p && c != n
            && g'.info[c].(idx := 0) == g.info[c].(idx := 0)
            && s'.pages[c] == (if o == m + 1 then s.pages[c].(prev := n) else s.pages[c])
  {
    CanSplitFacts(s, g, x, p, n);
    assert LinkOk(s, g, o) && LinkOk(s, g, m);
    assert PageOk(s, g, p, x);
    var c := g.chain[o];
    if o < m { assert ChainUp(g, o, m); } else { assert ChainUp(g, m, o); }
    if m + 1 < |g.chain| && o != m + 1 {
      if o < m + 1 { assert ChainUp(g, o, m + 1); } else { assert ChainUp(g, m + 1, o); }
    }
    if Moved(s, g, p, c) { MovedFacts(s, g, x, p, n, c); }
    assert Placed(s, g, LEAF_HEADER_PAGE) && Placed(s, g, c);
  }

  lemma SplitChainUp(s: Ix, g: Shape, x: set<int>, p: int, n: int, s': Ix, g': Shape, m: int, i: int, j: int)
    requires SplitCtx(s, g, x, p, n, s', g') && s.pages[p].isLeaf
    requires ChainIns(g, g', p, n, m) && 0 <= i < j < |g'.chain|
    ensures ChainUp(g', i, j)
  {
    var oi := if i <= m then i else i - 1;
    var oj := if j <= m then j else j - 1;
    if i == m + 1 {
      SplitChainUpNew(s, g, x, p, n, s', g', m, oj);
    } else {
      SplitChainUpOld(s, g, x, p, n, s', g', m, i, j, oi, oj);
    }
  }

  lemma SplitChainUpOld(s: Ix, g: Shape, x: set<int>, p: int, n: int, s': Ix, g': Shape, m: int,
                        i: int, j: int, oi: int, oj: int)
    requires SplitCtx(s, g, x, p, n, s', g') && s.pages[p].isLeaf
    requires ChainIns(g, g', p, n, m) && 0 <= i < j < |g'.chain| && i != m + 1
    requires oi == (if i <= m then i else i - 1) && oj == if j <= m then j else j - 1
    ensures ChainUp(g', i, j)
  {
    CanSplitFacts(s, g, x, p, n);
    SplitKeyInside(s, g, x, p, n);
    assert LinkOk(s, g, m);
    if oi != m { SplitOtherLeaf(s, g, x, p, n, s', g', m, oi); }
    if oj != m { SplitOtherLeaf(s, g, x, p, n, s', g', m, oj); }
    if oi < oj { assert ChainUp(g, oi, oj); }
  }

  /** The leaves behind the new one. */
  lemma SplitChainUpNew(s: Ix, g: Shape, x: set<int>, p: int, n: int, s': Ix, g': Shape, m: int, o: int)
    requires SplitCtx(s, g, x, p, n, s', g') && s.pages[p].isLeaf
    requires ChainIns(g, g', p, n, m) && m < o < |g.chain|
    ensures ChainUp(g', m + 1, o + 1)
  {
    CanSplitFacts(s, g, x, p, n);
    SplitKeyInside(s, g, x, p, n);
    assert LinkOk(s, g, m) && PageOk(s, g, p, x) && LinkOk(s, g, m + 1);
    SplitOtherLeaf(s, g, x, p, n, s', g', m, o);
    if m + 1 < o { assert ChainUp(g, m + 1, o); }
  }

  lemma SplitLeafContents(s: Ix, g: Shape, x: set<int>, p: int, n: int, s': Ix, g': Shape)
    requires SplitCtx(s, g, x, p, n, s', g') && s.pages[p].isLeaf
    ensures LeavesOk(s', g')
  {
    CanSplitFacts(s, g, x, p, n);
    assert PageOk(s, g, p, x);
    forall c | c in g'.info && g'.info[c].level == 0 ensures LeafOk(s', g', c) {
      assert LeafOk(s, g, if c == n then p else c);
      if Moved(s, g, p, c) { MovedFacts(s, g, x, p, n, c); }
      forall k | k in g'.m && Covers(g', c, k) ensures HasKey(s'.pages[c].ents, k) {
        if c == p || c == n {
          SplitLeafHas(s, g, x, p, n, s', g', c, k);
        } else {
          assert Covers(g, c, k);
        }
      }
    }
  }

  lemma SplitLeafHas(s: Ix, g: Shape, x: set<int>, p: int, n: int, s': Ix, g': Shape, c: int, k: Key)
    requires SplitCtx(s, g, x, p, n, s', g') && s.pages[p].isLeaf
    requires (c == p || c == n) && k in g'.m && Covers(g', c, k) && c in s'.pages
    ensures HasKey(s'.pages[c].ents, k)
  {
    CanSplitFacts(s, g, x, p, n);
    SplitKeyInside(s, g, x, p, n);
    assert PageOk(s, g, p, x) && LeafOk(s, g, p);
    var ents, h := s.pages[p].ents, Half(s.pages[p]);
    assert Covers(g, p, k);
    assert HasKey(ents, k);
    var i :| 0 <= i < |ents| && ents[i].key == k;
    if i < h { assert ents[i].key < ents[h].key; assert s'.pages[p].ents[i].key == k; }
    else {
      if i > h { assert ents[h].key < ents[i].key; }
      assert s'.pages[n].ents[i - h].key == k;
    }
  }

  lemma SplitInnerFrame(s: Ix, g: Shape, x: set<int>, p: int, n: int, s': Ix, g': Shape)
    requires SplitCtx(s, g, x, p, n, s', g') && !s.pages[p].isLeaf
    ensures ChainOk(s', g') && LeavesOk(s', g')
  {
    CanSplitFacts(s, g, x, p, n);
    assert PageOk(s, g, p, x) && Placed(s, g, LEAF_HEADER_PAGE);
    assert PageOk(s, g, s.pages[p].parent, x);
    forall c | c in g.info && g.info[c].level == 0 ensures SameLeaf(s, g, s', g', c) {
      assert PageOk(s, g, c, x);
    }
    assert g'.info[n].level != 0;
    LeafFrameKeeps(s, g, s', g');
  }

  /** Splitting a full page and linking the new sibling leaves at most the parent full. */
  lemma SplitKeeps(s: Ix, g: Shape, x: set<int>, p: int, n: int)
    requires CanSplit(s, g, x, p, n)
    ensures g.info.Keys <= s.pages.Keys
    ensures s.pages[p].isLeaf ==> s.pages[p].next in s.pages
    ensures var s1, q := Split(s, p, n), s.pages[p].parent;
            && q in s1.pages && n in s1.pages && n != q
            && s1.pages[q] == s.pages[q]
            && |s1.pages[n].ents| > 0
            && g.info[p].idx < |s1.pages[q].ents|
            && Inv(Link(s1, q, g.info[p].idx, n), SplitShape(s, g, p, n), x - {p} + {q}, NO_PAGE)
  {
    SplitPages(s, g, x, p, n);
    var q := s.pages[p].parent;
    var s', g' := Link(Split(s, p, n), q, g.info[p].idx, n), SplitShape(s, g, p, n);
    SplitPagesOk(s, g, x, p, n, s', g');
    SplitUpsOk(s, g, x, p, n, s', g');
    SplitKidsOk(s, g, x, p, n, s', g');
    SplitOwnOk(s, g, x, p, n, s', g');
    SplitFreeOk(s, g, x, p, n, s', g');
    if s.pages[p].isLeaf {
      SplitLeafChain(s, g, x, p, n, s', g');
      SplitLeafContents(s, g, x, p, n, s', g');
    } else {
      SplitInnerFrame(s, g, x, p, n, s', g');
    }
  }
}
