/** Splitting the root: a fresh page becomes the parent of both halves. */
module IxNewRoot {
  import opened IxModel
  import opened IxSteps
  import opened IxSplit

  /** What `insert_into_parent` writes when the split page was the root; `r` is the page just created. */
  function NewRoot(s: Ix, p: int, n: int, r: int): Ix
    requires p in s.pages && n in s.pages && r in s.pages && |s.pages[p].ents| > 0 && |s.pages[n].ents| > 0
    requires r != p && r != n
  {
    var q1 := s.pages[r := s.pages[r].(isLeaf := false, parent := NO_PAGE,
                                       ents := [Entry(s.pages[p].ents[0].key, Rid(p, 0)),
                                                Entry(s.pages[n].ents[0].key, Rid(n, 0))])];
    var q2 := q1[p := q1[p].(parent := r)];
    s.(root := r, pages := q2[n := q2[n].(parent := r)])
  }

  ghost predicate RootFull(s: Ix, g: Shape, p: int, n: int) {
    && Inv(s, g, {p}, NO_PAGE)
    && p == s.root && p in s.pages && p in g.info && |s.pages[p].ents| == MaxSize(s)
    && n in g.held && n in s.pages
    && (s.pages[p].isLeaf ==> s.pages[p].next in s.pages)
  }

  /** The same tree seen with the new root already above the full page. */
  ghost function Grown(s: Ix, junk: Page): Ix
    requires s.root in s.pages && |s.pages[s.root].ents| > 0
    requires AllocNo(s) in Alloc(s, junk).pages && s.root in Alloc(s, junk).pages && AllocNo(s) != s.root
  {
    GrowRoot(Alloc(s, junk), AllocNo(s))
  }

  ghost function GrownShape(s: Ix, g: Shape, junk: Page): Shape
    requires s.root in g.info
  {
    GrowShape(Alloc(s, junk), AllocShape(s, g), AllocNo(s))
  }

  lemma GrownCanSplit(s: Ix, g: Shape, p: int, n: int, junk: Page)
    requires RootFull(s, g, p, n)
    ensures AllocNo(s) in Alloc(s, junk).pages && p in Alloc(s, junk).pages && AllocNo(s) != p && AllocNo(s) != n
    ensures n in Alloc(s, junk).pages
    ensures forall c :: c in s.pages && c != AllocNo(s) ==>
              c in Alloc(s, junk).pages && Alloc(s, junk).pages[c] == s.pages[c]
    ensures CanSplit(Grown(s, junk), GrownShape(s, g, junk), {p, AllocNo(s)}, p, n)
    ensures GrownShape(s, g, junk).info[p].idx == 0
  {
    AllocKeeps(s, g, {p}, NO_PAGE, junk);
    var s1, g1, r := Alloc(s, junk), AllocShape(s, g), AllocNo(s);
    assert PageOk(s, g, p, {p}) && Placed(s, g, p) && Placed(s1, g1, r) && Placed(s1, g1, p);
    GrowRootKeeps(s1, g1, {p}, NO_PAGE, r);
    assert {p} + {r, p} == {p, r};
  }

  ghost function NewRootShape(s: Ix, g: Shape, p: int, n: int, junk: Page): Shape
    requires RootFull(s, g, p, n)
  {
    GrownCanSplit(s, g, p, n, junk);
    CanSplitFacts(Grown(s, junk), GrownShape(s, g, junk), {p, AllocNo(s)}, p, n);
    SplitShape(Grown(s, junk), GrownShape(s, g, junk), p, n)
  }

  /** The pages `Split` writes when the root is full. */
  lemma SplitAside(s: Ix, g: Shape, p: int, n: int, r: int)
    requires RootFull(s, g, p, n) && r !in g.info && r != n && r != LEAF_HEADER_PAGE
    ensures p != n && r != p
    ensures s.pages[p].isLeaf ==> s.pages[p].next != r && s.pages[p].next != p && s.pages[p].next != n
    ensures !s.pages[p].isLeaf ==> forall c {:trigger Names(s.pages[p].ents[Half(s.pages[p])..], c)} ::
              Names(s.pages[p].ents[Half(s.pages[p])..], c) ==> c in g.info && c != p && c in s.pages
  {
    assert PageOk(s, g, p, {p}) && Placed(s, g, n) && Placed(s, g, p);
    if s.pages[p].isLeaf {
      assert p in g.chain;
      var i :| 0 <= i < |g.chain| && g.chain[i] == p;
      assert LinkOk(s, g, i);
      if i + 1 < |g.chain| { assert LinkOk(s, g, i + 1); ChainLoUp(s, g, i, i + 1); }
    } else {
      var h := Half(s.pages[p]);
      forall c | Names(s.pages[p].ents[h..], c) ensures c in g.info && c != p && c in s.pages {
        var i :| 0 <= i < |s.pages[p].ents| - h && s.pages[p].ents[h..][i].rid.pageNo == c;
        assert KidOk(s, g, p, h + i, NO_PAGE);
      }
    }
  }

  /** Page `c` once the root is split and `r` is above both halves. */
  ghost function FinalPage(s: Ix, p: int, n: int, junk: Page, c: int): Page
    requires p in s.pages && n in s.pages && |s.pages[p].ents| >= 2
    requires c in Alloc(s, junk).pages
  {
    var pg, r := s.pages[p], AllocNo(s);
    var h := Half(pg);
    if c == r then
      Alloc(s, junk).pages[r].(isLeaf := false, parent := NO_PAGE,
                               ents := [Entry(pg.ents[0].key, Rid(p, 0)), Entry(pg.ents[h].key, Rid(n, 0))])
    else if c == p then pg.(ents := pg.ents[..h], parent := r, next := if pg.isLeaf then n else pg.next)
    else if c == n then
      var right := s.pages[n].(isLeaf := pg.isLeaf, parent := r, ents := pg.ents[h..]);
      if pg.isLeaf then right.(next := pg.next, prev := p) else right
    else
      var o := Alloc(s, junk).pages[c];
      if pg.isLeaf then (if c == pg.next then o.(prev := n) else o)
      else if Names(pg.ents[h..], c) then o.(parent := n) else o
  }

  ghost predicate Apart(s: Ix, g: Shape, p: int, n: int, junk: Page) {
    RootFull(s, g, p, n) && Distinct(s, p, n, junk)
  }

  /** The full root, its new sibling and the new root are different pages, and so are the neighbour of
      the root and its children. */
  ghost predicate Distinct(s: Ix, p: int, n: int, junk: Page) {
    && p == s.root && p in s.pages && n in s.pages && (s.pages[p].isLeaf ==> s.pages[p].next in s.pages)
    && |s.pages[p].ents| >= 2
    && var r := AllocNo(s);
    && r != p && r != n && p != n
    && r in Alloc(s, junk).pages && p in Alloc(s, junk).pages && n in Alloc(s, junk).pages
    && (forall c :: c in s.pages && c != r ==> c in Alloc(s, junk).pages && Alloc(s, junk).pages[c] == s.pages[c])
    && (s.firstFree != NO_PAGE ==> s.firstFree in s.pages)
    && (s.firstFree == NO_PAGE ==> r !in s.pages)
    && (s.pages[p].isLeaf ==> s.pages[p].next != r && s.pages[p].next != p && s.pages[p].next != n)
    && (!s.pages[p].isLeaf ==>
        !Names(s.pages[p].ents[Half(s.pages[p])..], p) && !Names(s.pages[p].ents[Half(s.pages[p])..], n)
                               && !Names(s.pages[p].ents[Half(s.pages[p])..], r))
  }

  lemma IsApart(s: Ix, g: Shape, p: int, n: int, junk: Page)
    requires RootFull(s, g, p, n)
    ensures Apart(s, g, p, n, junk)
  {
    GrownCanSplit(s, g, p, n, junk);
    AllocKeeps(s, g, {p}, NO_PAGE, junk);
    if |g.free| > 0 { assert FreeLink(s, g, 0); }
    assert Placed(s, g, s.numPages) && Placed(s, g, n);
    SplitAside(s, g, p, n, AllocNo(s));
  }

  lemma CodeOrder(s: Ix, p: int, n: int, junk: Page)
    requires Distinct(s, p, n, junk)
    ensures var t, r := Split(s, p, n), AllocNo(s);
            && AllocNo(t) == r
            && (t.firstFree != NO_PAGE ==> t.firstFree in t.pages)
            && var u := Alloc(t, junk);
            && p in u.pages && n in u.pages && r in u.pages
            && |u.pages[p].ents| > 0 && |u.pages[n].ents| > 0
            && NewRoot(u, p, n, r).pages == (map c | c in Alloc(s, junk).pages :: FinalPage(s, p, n, junk, c))
            && NewRoot(u, p, n, r)
                == Alloc(s, junk).(root := r, pages := NewRoot(u, p, n, r).pages, lastLeaf := t.lastLeaf)
            && t.lastLeaf == if s.pages[p].isLeaf && s.lastLeaf == p then n else s.lastLeaf
  {
    CodeAlloc(s, p, n, junk);
    var t := Split(s, p, n);
    var u, r := Alloc(t, junk), AllocNo(s);
    var fin := NewRoot(u, p, n, r).pages;
    forall c | c in fin ensures fin[c] == FinalPage(s, p, n, junk, c) { }
  }

  /** After the split the same page is the next to be handed out. */
  lemma CodeAlloc(s: Ix, p: int, n: int, junk: Page)
    requires Distinct(s, p, n, junk)
    ensures var t, r := Split(s, p, n), AllocNo(s);
            && AllocNo(t) == r
            && (t.firstFree != NO_PAGE ==> t.firstFree in t.pages)
            && Alloc(t, junk).pages.Keys == Alloc(s, junk).pages.Keys
            && Alloc(t, junk) == Alloc(s, junk).(pages := Alloc(t, junk).pages, lastLeaf := t.lastLeaf)
            && (forall c :: c in t.pages && c != r ==>
                c in Alloc(t, junk).pages && Alloc(t, junk).pages[c] == t.pages[c])
            && Alloc(t, junk).pages[r] == Alloc(s, junk).pages[r]
  {
    assert Split(s, p, n).pages.Keys == s.pages.Keys;
  }

  lemma GrownOrder(s: Ix, p: int, n: int, junk: Page)
    requires Distinct(s, p, n, junk)
    ensures var G, r := Grown(s, junk), AllocNo(s);
            && p in G.pages && n in G.pages
            && (G.pages[p].isLeaf ==> G.pages[p].next in G.pages)
            && var w := Split(G, p, n);
            && r in w.pages && n in w.pages && 0 < |w.pages[r].ents| && |w.pages[n].ents| > 0
            && Link(w, r, 0, n).pages == (map c | c in Alloc(s, junk).pages :: FinalPage(s, p, n, junk, c))
            && Link(w, r, 0, n) == Alloc(s, junk).(root := r, pages := Link(w, r, 0, n).pages, lastLeaf := w.lastLeaf)
            && w.lastLeaf == if s.pages[p].isLeaf && s.lastLeaf == p then n else s.lastLeaf
  {
    var G, r := Grown(s, junk), AllocNo(s);
    assert G.pages.Keys == Alloc(s, junk).pages.Keys;
    assert G.pages[p].ents == s.pages[p].ents;
    var w := Split(G, p, n);
    assert w.pages.Keys == G.pages.Keys;
    var fin := Link(w, r, 0, n).pages;
    assert fin.Keys == Alloc(s, junk).pages.Keys;
    forall c | c in fin ensures fin[c] == FinalPage(s, p, n, junk, c) { }
  }

  /** Splitting first and adding the root afterwards ends in the same pages. */
  lemma NewRootSame(s: Ix, g: Shape, p: int, n: int, junk: Page)
    requires RootFull(s, g, p, n)
    ensures Apart(s, g, p, n, junk)
    ensures var t, r := Split(s, p, n), AllocNo(s);
            && AllocNo(t) == r
            && (t.firstFree != NO_PAGE ==> t.firstFree in t.pages)
            && var u := Alloc(t, junk);
            && p in u.pages && n in u.pages && r in u.pages
            && |u.pages[p].ents| > 0 && |u.pages[n].ents| > 0
            && p in Grown(s, junk).pages && n in Grown(s, junk).pages
            && (Grown(s, junk).pages[p].isLeaf ==> Grown(s, junk).pages[p].next in Grown(s, junk).pages)
            && var w := Split(Grown(s, junk), p, n);
            && r in w.pages && n in w.pages && 0 < |w.pages[r].ents| && |w.pages[n].ents| > 0
            && NewRoot(u, p, n, r) == Link(w, r, 0, n)
  {
    IsApart(s, g, p, n, junk);
    CodeOrder(s, p, n, junk);
    GrownOrder(s, p, n, junk);
  }

  /** The split of the old root under the new one, seen as an ordinary split. */
  lemma NewRootLinked(s: Ix, g: Shape, p: int, n: int, junk: Page)
    requires RootFull(s, g, p, n) && Apart(s, g, p, n, junk)
    requires p in Grown(s, junk).pages && n in Grown(s, junk).pages
    requires Grown(s, junk).pages[p].isLeaf ==> Grown(s, junk).pages[p].next in Grown(s, junk).pages
    requires var w, r := Split(Grown(s, junk), p, n), AllocNo(s);
             r in w.pages && n in w.pages && 0 < |w.pages[r].ents| && |w.pages[n].ents| > 0 && r != n
    ensures Inv(Link(Split(Grown(s, junk), p, n), AllocNo(s), 0, n), NewRootShape(s, g, p, n, junk), {}, NO_PAGE)
  {
    var r := AllocNo(s);
    var b, g' := Link(Split(Grown(s, junk), p, n), r, 0, n), NewRootShape(s, g, p, n, junk);
    NewRootPending(s, g, p, n, junk);
    DropExempt(b, g', {r}, NO_PAGE, r);
    assert {r} - {r} == {};
  }

  /** The same while the new root is exempt from the size rules. */
  lemma NewRootPending(s: Ix, g: Shape, p: int, n: int, junk: Page)
    requires RootFull(s, g, p, n) && Apart(s, g, p, n, junk)
    requires p in Grown(s, junk).pages && n in Grown(s, junk).pages
    requires Grown(s, junk).pages[p].isLeaf ==> Grown(s, junk).pages[p].next in Grown(s, junk).pages
    requires var w, r := Split(Grown(s, junk), p, n), AllocNo(s);
             r in w.pages && n in w.pages && 0 < |w.pages[r].ents| && |w.pages[n].ents| > 0 && r != n
    ensures var b, g', r :=
              Link(Split(Grown(s, junk), p, n), AllocNo(s), 0, n), NewRootShape(s, g, p, n, junk), AllocNo(s);
            Inv(b, g', {r}, NO_PAGE) && r in g'.info && r in b.pages && SizeOk(b, r)
  {
    var r := AllocNo(s);
    GrownCanSplit(s, g, p, n, junk);
    SplitKeeps(Grown(s, junk), GrownShape(s, g, junk), {p, r}, p, n);
    assert {p, r} - {p} + {r} == {r};
  }

  lemma NewRootHeld(s: Ix, g: Shape, p: int, n: int, junk: Page)
    requires RootFull(s, g, p, n)
    ensures NewRootShape(s, g, p, n, junk).held == g.held - {n}
    ensures NewRootShape(s, g, p, n, junk).m == g.m
  {
    GrownCanSplit(s, g, p, n, junk);
    AllocKeeps(s, g, {p}, NO_PAGE, junk);
    var r := AllocNo(s);
    assert (g.held + {r}) - {r} - {n} == g.held - {n};
  }

  lemma NewRootKeeps(s: Ix, g: Shape, p: int, n: int, junk: Page)
    requires RootFull(s, g, p, n)
    ensures var t, r := Split(s, p, n), AllocNo(s);
            && AllocNo(t) == r
            && (t.firstFree != NO_PAGE ==> t.firstFree in t.pages)
            && var u := Alloc(t, junk);
            && p in u.pages && n in u.pages && r in u.pages && r != p && r != n
            && |u.pages[p].ents| > 0 && |u.pages[n].ents| > 0
            && Inv(NewRoot(u, p, n, r), NewRootShape(s, g, p, n, junk), {}, NO_PAGE)
    ensures NewRootShape(s, g, p, n, junk).held == g.held - {n}
    ensures NewRootShape(s, g, p, n, junk).m == g.m
  {
    GrownCanSplit(s, g, p, n, junk);
    NewRootSame(s, g, p, n, junk);
    NewRootLinked(s, g, p, n, junk);
    NewRootHeld(s, g, p, n, junk);
  }
}
