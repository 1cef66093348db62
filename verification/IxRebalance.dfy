/** Moving the boundary between two neighbouring pages: what `redistribute` does in both
    directions, for leaves and for internal pages. */
module IxRebalance {
  import opened IxModel
  import opened IxSteps

  /** Slots `j` and `j + 1` of page `q` name the neighbours `l` and `r`. */
  ghost predicate Neighbours(s: Ix, g: Shape, q: int, j: int, l: int, r: int) {
    && IsSlot(s, g, q, j) && IsSlot(s, g, q, j + 1)
    && l == Child(s.pages[q], j) && r == Child(s.pages[q], j + 1)
  }

  lemma NeighbourFacts(s: Ix, g: Shape, x: set<int>, q: int, j: int, l: int, r: int)
    requires PagesOk(s, g, x) && UpsOk(s, g) && KidsOk(s, g, NO_PAGE)
    requires Neighbours(s, g, q, j, l, r)
    ensures l in g.info && r in g.info && l in s.pages && r in s.pages
    ensures l != r && l != q && r != q && l != s.root && r != s.root
    ensures g.info[l].idx == j && g.info[r].idx == j + 1
    ensures s.pages[l].parent == q && s.pages[r].parent == q
    ensures g.info[l].level + 1 == g.info[q].level && g.info[r].level + 1 == g.info[q].level
    ensures g.info[l].hi == g.info[r].lo == At(s.pages[q].ents[j + 1].key)
    ensures s.pages[l].isLeaf == s.pages[r].isLeaf
    ensures !s.pages[r].isLeaf ==> |s.pages[r].ents| > 0 && s.pages[r].ents[0].key == s.pages[q].ents[j + 1].key
    ensures g.info.Keys <= s.pages.Keys
    ensures forall c :: c in g.info ==> INIT_ROOT_PAGE <= c
    ensures s.pages[s.root].parent == NO_PAGE
  {
    assert KidOk(s, g, q, j, NO_PAGE) && KidOk(s, g, q, j + 1, NO_PAGE);
    assert PageOk(s, g, l, x) && PageOk(s, g, r, x) && UpOk(s, g, s.root);
    forall c | c in g.info ensures c in s.pages && INIT_ROOT_PAGE <= c { assert PageOk(s, g, c, x); }
  }

  /** The pairs of both pages, left then right. */
  function Both(s: Ix, l: int, r: int): seq<Entry>
    requires l in s.pages && r in s.pages
  {
    s.pages[l].ents + s.pages[r].ents
  }

  /** Side by side the pairs of two neighbours are sorted within the joint interval. */
  lemma BothSorted(s: Ix, g: Shape, x: set<int>, q: int, j: int, l: int, r: int)
    requires PagesOk(s, g, x) && UpsOk(s, g) && KidsOk(s, g, NO_PAGE)
    requires Neighbours(s, g, q, j, l, r)
    ensures l in g.info && r in g.info && l in s.pages && r in s.pages
    ensures var es, start := Both(s, l, r), if s.pages[l].isLeaf then 0 else 1;
            && Sorted(es, start)
            && Within(es, start, g.info[l].lo, g.info[r].hi)
            && (!s.pages[l].isLeaf ==> forall i {:trigger es[i]} :: 1 <= i < |es| ==> g.info[l].lo != At(es[i].key))
    ensures !s.pages[l].isLeaf ==> |s.pages[l].ents| >= 1 && |s.pages[r].ents| >= 1
  {
    NeighbourFacts(s, g, x, q, j, l, r);
    assert PageOk(s, g, l, x) && PageOk(s, g, r, x);
    var a := s.pages[q].ents[j + 1].key;
    var le, re, es := s.pages[l].ents, s.pages[r].ents, Both(s, l, r);
    var start := if s.pages[l].isLeaf then 0 else 1;
    forall i | start <= i < |es|
      ensures i < |le| ==> es[i] == le[i] && es[i].key < a && Below(g.info[l].lo, es[i].key)
      ensures i >= |le| ==> es[i] == re[i - |le|] && a <= es[i].key && Above(g.info[r].hi, es[i].key)
    {
    }
    assert Lt(g.info[l].lo, At(a)) && Lt(At(a), g.info[r].hi);
  }

  // ---------------------------------------------------------------- the step

  /** The first `t` pairs of both pages on the left, the rest on the right. */
  ghost predicate CanRebalance(s: Ix, g: Shape, x: set<int>, q: int, j: int, l: int, r: int, t: int) {
    && Inv(s, g, x, NO_PAGE)
    && Neighbours(s, g, q, j, l, r)
    && l in s.pages && r in s.pages && l in g.info && r in g.info
    && t != |s.pages[l].ents|
    && MinSize(s) <= t < MaxSize(s)
    && MinSize(s) <= |s.pages[l].ents| + |s.pages[r].ents| - t < MaxSize(s)
  }

  ghost predicate KidOf(s: Ix, g: Shape, u: int, c: int) {
    c in g.info && c in s.pages && s.pages[c].parent == u
  }

  /** Where child `c` of `l` or `r` stands when both pages are read as one. */
  ghost function Spot(s: Ix, g: Shape, l: int, r: int, c: int): int
    requires l in s.pages && c in g.info
  {
    if KidOf(s, g, r, c) then |s.pages[l].ents| + g.info[c].idx else g.info[c].idx
  }

  ghost function RebPage(s: Ix, g: Shape, q: int, j: int, l: int, r: int, t: int, c: int): Page
    requires l in s.pages && r in s.pages && q in s.pages && c in s.pages && 0 <= j < |s.pages[q].ents| - 1
    requires 0 <= t < |Both(s, l, r)|
  {
    var es := Both(s, l, r);
    if c == l then s.pages[l].(ents := es[..t])
    else if c == r then s.pages[r].(ents := es[t..])
    else if c == q then s.pages[q].(ents := s.pages[q].ents[j + 1 := s.pages[q].ents[j + 1].(key := es[t].key)])
    else if KidOf(s, g, l, c) || KidOf(s, g, r, c) then
      s.pages[c].(parent := if Spot(s, g, l, r, c) < t then l else r)
    else s.pages[c]
  }

  ghost function RebInfo(s: Ix, g: Shape, l: int, r: int, t: nat, c: int): Info
    requires l in s.pages && r in s.pages && c in g.info && t < |Both(s, l, r)|
  {
    var f, b := g.info[c], At(Both(s, l, r)[t].key);
    if c == l then f.(hi := b)
    else if c == r then f.(lo := b)
    else if KidOf(s, g, l, c) || KidOf(s, g, r, c) then
      var o := Spot(s, g, l, r, c);
      f.(idx := if 0 <= o < t then o else if o >= t then o - t else 0)
    else f
  }

  ghost function RebOwn(s: Ix, g: Shape, q: int, a: Key, l: int, r: int, t: nat): map<Key, Sep>
    requires l in g.info && l in s.pages && r in s.pages && t < |Both(s, l, r)|
  {
    var b := Both(s, l, r)[t].key;
    map e | e in g.own.Keys + {b} && (e == a ==> !s.pages[l].isLeaf) ::
      if e == b then Sep(q, g.info[l].level + 1)
      else if e == a then Sep(if e < b then l else r, g.info[l].level)
      else if g.own[e].page == l || g.own[e].page == r then g.own[e].(page := if e < b then l else r)
      else g.own[e]
  }

  ghost predicate RebCtx(s: Ix, g: Shape, x: set<int>, q: int, j: int, l: int, r: int, t: int, s': Ix, g': Shape) {
    && CanRebalance(s, g, x, q, j, l, r, t)
    && 0 <= t < |Both(s, l, r)|
    && g' == g.(info := map c | c in g.info :: RebInfo(s, g, l, r, t, c),
                own := RebOwn(s, g, q, s.pages[q].ents[j + 1].key, l, r, t))
    && s' == s.(pages := map c | c in s.pages :: RebPage(s, g, q, j, l, r, t, c))
  }

  /** The new boundary key lies strictly inside the joint interval and on the proper side of the old one. */
  lemma NewKey(s: Ix, g: Shape, x: set<int>, q: int, j: int, l: int, r: int, t: int)
    requires CanRebalance(s, g, x, q, j, l, r, t)
    ensures 1 <= t < |Both(s, l, r)|
    ensures var a, b, le := s.pages[q].ents[j + 1].key, Both(s, l, r)[t].key, |s.pages[l].ents|;
            && Lt(g.info[l].lo, At(b)) && Lt(At(b), g.info[r].hi)
            && (t < le ==> b < a) && (t > le ==> a < b)
  {
    NeighbourFacts(s, g, x, q, j, l, r);
    BothSorted(s, g, x, q, j, l, r);
    assert PageOk(s, g, l, x) && PageOk(s, g, r, x);
    var es, le := Both(s, l, r), |s.pages[l].ents|;
    if s.pages[l].isLeaf {
      assert es[0].key < es[t].key && Below(g.info[l].lo, es[0].key);
    }
    if t < le { assert es[t] == s.pages[l].ents[t]; }
    else {
      assert es[t] == s.pages[r].ents[t - le];
      if s.pages[l].isLeaf { assert s.pages[r].ents[0].key < es[t].key && Below(g.info[r].lo, s.pages[r].ents[0].key); }
    }
  }

  lemma RebPagesOk(s: Ix, g: Shape, x: set<int>, q: int, j: int, l: int, r: int, t: int, s': Ix, g': Shape)
    requires RebCtx(s, g, x, q, j, l, r, t, s', g')
    ensures PagesOk(s', g', x - {l, r})
  {
    forall c | c in g'.info ensures PageOk(s', g', c, x - {l, r}) {
      NeighbourFacts(s, g, x, q, j, l, r);
      assert PageOk(s, g, c, x);
      if c == l || c == r {
        RebPageHere(s, g, x, q, j, l, r, t, s', g', c);
      } else if c == q {
        RebPageParent(s, g, x, q, j, l, r, t, s', g');
      }
    }
  }

  lemma RebPageHere(s: Ix, g: Shape, x: set<int>, q: int, j: int, l: int, r: int, t: int, s': Ix, g': Shape, c: int)
    requires RebCtx(s, g, x, q, j, l, r, t, s', g') && (c == l || c == r)
    ensures PageOk(s', g', c, x - {l, r})
  {
    NeighbourFacts(s, g, x, q, j, l, r);
    BothSorted(s, g, x, q, j, l, r);
    NewKey(s, g, x, q, j, l, r, t);
    assert PageOk(s, g, l, x) && PageOk(s, g, r, x) && PageOk(s, g, s.root, x);
    var es := Both(s, l, r);
    var start := if s.pages[l].isLeaf then 0 else 1;
    assert s'.pages[c].ents == if c == l then es[..t] else es[t..];
    HalfSorted(es, start, t, g.info[l].lo, g.info[r].hi);
  }

  /** Cut at `t`, sorted entries have their halves on the two sides of the key there. */
  lemma HalfSorted(es: seq<Entry>, start: nat, t: nat, lo: Bound, hi: Bound)
    requires start <= 1 <= t < |es| && Sorted(es, start) && Within(es, start, lo, hi)
    ensures Sorted(es[..t], start) && Within(es[..t], start, lo, At(es[t].key))
    ensures Sorted(es[t..], start) && Within(es[t..], start, At(es[t].key), hi)
    ensures forall i {:trigger es[t..][i]} :: 1 <= i < |es| - t ==> es[t].key < es[t..][i].key
  {
    forall i | start <= i < t ensures es[i].key < es[t].key { }
    forall i | 0 <= i < |es| - t ensures es[t..][i] == es[t + i] && (i > 0 ==> es[t].key < es[t + i].key) { }
  }

  lemma RebPageParent(s: Ix, g: Shape, x: set<int>, q: int, j: int, l: int, r: int, t: int, s': Ix, g': Shape)
    requires RebCtx(s, g, x, q, j, l, r, t, s', g')
    ensures PageOk(s', g', q, x - {l, r})
  {
    NeighbourFacts(s, g, x, q, j, l, r);
    NewKey(s, g, x, q, j, l, r, t);
    assert PageOk(s, g, q, x) && PageOk(s, g, s.root, x);
    assert KidOk(s, g, q, j, NO_PAGE) && KidOk(s, g, q, j + 1, NO_PAGE);
    var ents, b := s.pages[q].ents, Both(s, l, r)[t].key;
    assert s'.pages[q].ents == ents[j + 1 := ents[j + 1].(key := b)];
    MoveSeparator(ents, j + 1, b, g.info[q].lo, g.info[q].hi);
  }

  /** A separator moved between its neighbours. */
  lemma MoveSeparator(ents: seq<Entry>, pos: nat, b: Key, lo: Bound, hi: Bound)
    requires 1 <= pos < |ents| && Sorted(ents, 1) && Within(ents, 1, lo, hi)
    requires forall i {:trigger ents[i]} :: 1 <= i < |ents| ==> lo != At(ents[i].key)
    requires if pos > 1 then ents[pos - 1].key < b else Lt(lo, At(b))
    requires if pos + 1 < |ents| then b < ents[pos + 1].key else Lt(At(b), hi)
    ensures var es := ents[pos := ents[pos].(key := b)];
            && Sorted(es, 1) && Within(es, 1, lo, hi)
            && forall i {:trigger es[i]} :: 1 <= i < |es| ==> lo != At(es[i].key)
  {
    assert Lt(lo, At(b)) by { if pos > 1 { assert Below(lo, ents[pos - 1].key); } }
    assert Lt(At(b), hi) by { if pos + 1 < |ents| { assert Above(hi, ents[pos + 1].key); } }
    forall i | 1 <= i < |ents| ensures (i < pos ==> ents[i].key < b) && (i > pos ==> b < ents[i].key) {
      if i < pos - 1 { assert ents[i].key < ents[pos - 1].key; }
      if i > pos + 1 { assert ents[pos + 1].key < ents[i].key; }
    }
  }

  // ---------------------------------------------------------------- links

  /** A child of `l` or `r` is an internal page's child, at the slot its spot says. */
  lemma KidSpot(s: Ix, g: Shape, x: set<int>, q: int, j: int, l: int, r: int, t: int, c: int)
    requires CanRebalance(s, g, x, q, j, l, r, t)
    requires KidOf(s, g, l, c) || KidOf(s, g, r, c)
    ensures !s.pages[l].isLeaf && c != l && c != r && c != q && c != s.root
    ensures 0 <= Spot(s, g, l, r, c) < |Both(s, l, r)| && Both(s, l, r)[Spot(s, g, l, r, c)].rid.pageNo == c
    ensures KidOf(s, g, l, c) <==> Spot(s, g, l, r, c) < |s.pages[l].ents|
    ensures g.info[c].level + 1 == g.info[l].level == g.info[r].level
  {
    NeighbourFacts(s, g, x, q, j, l, r);
    assert UpOk(s, g, c);
    assert PageOk(s, g, l, x) && PageOk(s, g, r, x);
  }

  lemma RebUpsOk(s: Ix, g: Shape, x: set<int>, q: int, j: int, l: int, r: int, t: int, s': Ix, g': Shape)
    requires RebCtx(s, g, x, q, j, l, r, t, s', g')
    ensures UpsOk(s', g')
  {
    forall c | c in g'.info ensures UpOk(s', g', c) {
      RebUp(s, g, x, q, j, l, r, t, s', g', c);
    }
  }

  lemma RebUp(s: Ix, g: Shape, x: set<int>, q: int, j: int, l: int, r: int, t: int, s': Ix, g': Shape, c: int)
    requires RebCtx(s, g, x, q, j, l, r, t, s', g') && c in g.info
    ensures UpOk(s', g', c)
  {
    NeighbourFacts(s, g, x, q, j, l, r);
    assert UpOk(s, g, c);
    if KidOf(s, g, l, c) || KidOf(s, g, r, c) {
      RebUpKid(s, g, x, q, j, l, r, t, s', g', c);
    }
  }

  lemma RebUpKid(s: Ix, g: Shape, x: set<int>, q: int, j: int, l: int, r: int, t: int, s': Ix, g': Shape, c: int)
    requires RebCtx(s, g, x, q, j, l, r, t, s', g') && c in g.info && (KidOf(s, g, l, c) || KidOf(s, g, r, c))
    ensures UpOk(s', g', c)
  {
    NeighbourFacts(s, g, x, q, j, l, r);
    assert UpOk(s, g, c);
    KidSpot(s, g, x, q, j, l, r, t, c);
    var o := Spot(s, g, l, r, c);
    if o < t { assert s'.pages[l].ents[o] == Both(s, l, r)[o]; }
    else { assert s'.pages[r].ents[o - t] == Both(s, l, r)[o]; }
  }

  lemma RebKidsOk(s: Ix, g: Shape, x: set<int>, q: int, j: int, l: int, r: int, t: int, s': Ix, g': Shape)
    requires RebCtx(s, g, x, q, j, l, r, t, s', g')
    ensures KidsOk(s', g', NO_PAGE)
  {
    forall u, i | IsSlot(s', g', u, i) ensures KidOk(s', g', u, i, NO_PAGE) {
      if u == l || u == r {
        RebKidHere(s, g, x, q, j, l, r, t, s', g', u, i);
      } else if u == q {
        RebKidParent(s, g, x, q, j, l, r, t, s', g', i);
      } else {
        RebKidOther(s, g, x, q, j, l, r, t, s', g', u, i);
      }
    }
  }

  /** The child at spot `o` of the two pages read as one, with the interval it keeps. */
  lemma SpotKid(s: Ix, g: Shape, x: set<int>, q: int, j: int, l: int, r: int, t: int, o: int)
    requires CanRebalance(s, g, x, q, j, l, r, t) && !s.pages[l].isLeaf && 0 <= o < |Both(s, l, r)|
    ensures var es := Both(s, l, r); var c := es[o].rid.pageNo;
            && (KidOf(s, g, l, c) || KidOf(s, g, r, c)) && Spot(s, g, l, r, c) == o
            && c != l && c != r && c != q && c != s.root
            && g.info[c].level + 1 == g.info[l].level
            && g.info[c].lo == (if o == 0 then g.info[l].lo else At(es[o].key))
            && g.info[c].hi == (if o + 1 < |es| then At(es[o + 1].key) else g.info[r].hi)
            && (!s.pages[c].isLeaf ==> |s.pages[c].ents| > 0 && s.pages[c].ents[0].key == es[o].key)
  {
    NeighbourFacts(s, g, x, q, j, l, r);
    BothSorted(s, g, x, q, j, l, r);
    var es, le := Both(s, l, r), |s.pages[l].ents|;
    if o < le {
      assert KidOk(s, g, l, o, NO_PAGE);
      assert es[o] == s.pages[l].ents[o];
      if o + 1 == le { assert es[o + 1] == s.pages[r].ents[0]; }
    } else {
      assert KidOk(s, g, r, o - le, NO_PAGE);
      assert es[o] == s.pages[r].ents[o - le];
    }
    KidSpot(s, g, x, q, j, l, r, t, es[o].rid.pageNo);
  }

  lemma RebKidHere(s: Ix, g: Shape, x: set<int>, q: int, j: int, l: int, r: int, t: int, s': Ix, g': Shape, u: int,
                   i: int)
    requires RebCtx(s, g, x, q, j, l, r, t, s', g') && IsSlot(s', g', u, i) && (u == l || u == r)
    ensures KidOk(s', g', u, i, NO_PAGE)
  {
    NeighbourFacts(s, g, x, q, j, l, r);
    NewKey(s, g, x, q, j, l, r, t);
    var es := Both(s, l, r);
    var o := if u == l then i else i + t;
    assert s'.pages[u].ents == if u == l then es[..t] else es[t..];
    SpotKid(s, g, x, q, j, l, r, t, o);
    assert s'.pages[u].ents[i] == es[o];
    assert PageOk(s, g, l, x) && PageOk(s, g, r, x);
  }

  lemma RebKidParent(s: Ix, g: Shape, x: set<int>, q: int, j: int, l: int, r: int, t: int, s': Ix, g': Shape, i: int)
    requires RebCtx(s, g, x, q, j, l, r, t, s', g') && IsSlot(s', g', q, i)
    ensures KidOk(s', g', q, i, NO_PAGE)
  {
    NeighbourFacts(s, g, x, q, j, l, r);
    NewKey(s, g, x, q, j, l, r, t);
    BothSorted(s, g, x, q, j, l, r);
    assert KidOk(s, g, q, i, NO_PAGE);
    var c := Child(s.pages[q], i);
    if c == l || c == r {
      assert PageOk(s, g, c, x);
      assert c == l ==> i == j;
      assert c == r ==> i == j + 1;
    } else {
      assert i != j && i != j + 1;
    }
  }

  lemma RebKidOther(s: Ix, g: Shape, x: set<int>, q: int, j: int, l: int, r: int, t: int, s': Ix, g': Shape, u: int,
                    i: int)
    requires RebCtx(s, g, x, q, j, l, r, t, s', g') && IsSlot(s', g', u, i) && u != l && u != r && u != q
    ensures KidOk(s', g', u, i, NO_PAGE)
  {
    NeighbourFacts(s, g, x, q, j, l, r);
    assert IsSlot(s, g, u, i);
    assert KidOk(s, g, u, i, NO_PAGE);
    var c := Child(s.pages[u], i);
    assert c != l && c != r && !KidOf(s, g, l, c) && !KidOf(s, g, r, c);
    if c == q { assert PageOk(s, g, q, x); }
  }

  // ---------------------------------------------------------------- separators

  /** The separators of the two pages and the one between them, as `own` knows them. */
  lemma SpotOwn(s: Ix, g: Shape, x: set<int>, q: int, j: int, l: int, r: int, t: int, o: int)
    requires CanRebalance(s, g, x, q, j, l, r, t) && !s.pages[l].isLeaf && 1 <= o < |Both(s, l, r)|
    ensures var e := Both(s, l, r)[o].key;
            e in g.own && (e == s.pages[q].ents[j + 1].key ||
                          ((g.own[e].page == l || g.own[e].page == r) && g.own[e].level == g.info[l].level))
  {
    NeighbourFacts(s, g, x, q, j, l, r);
    var es, le := Both(s, l, r), |s.pages[l].ents|;
    assert OwnAt(s, g, q, j + 1);
    if o < le { assert OwnAt(s, g, l, o); }
    else if o > le { assert OwnAt(s, g, r, o - le); }
  }

  lemma NewKeyFree(s: Ix, g: Shape, x: set<int>, q: int, j: int, l: int, r: int, t: int)
    requires CanRebalance(s, g, x, q, j, l, r, t)
    ensures 0 <= t < |Both(s, l, r)|
    ensures var b := Both(s, l, r)[t].key;
            b in g.own ==>
              !s.pages[l].isLeaf && (g.own[b].page == l || g.own[b].page == r) && g.own[b].level == g.info[l].level
  {
    NeighbourFacts(s, g, x, q, j, l, r);
    NewKey(s, g, x, q, j, l, r, t);
    assert PageOk(s, g, l, x) && PageOk(s, g, r, x);
    var b := Both(s, l, r)[t].key;
    if s.pages[l].isLeaf {
      if b in g.own {
        OutsideOf(s, g, b, if t < |s.pages[l].ents| then l else r);
      }
    } else {
      SpotOwn(s, g, x, q, j, l, r, t, t);
    }
  }

  lemma RebOwnAt(s: Ix, g: Shape, x: set<int>, q: int, j: int, l: int, r: int, t: int, s': Ix, g': Shape, u: int,
                 i: int)
    requires RebCtx(s, g, x, q, j, l, r, t, s', g') && IsSlot(s', g', u, i) && 1 <= i
    ensures OwnAt(s', g', u, i)
  {
    NeighbourFacts(s, g, x, q, j, l, r);
    NewKey(s, g, x, q, j, l, r, t);
    NewKeyFree(s, g, x, q, j, l, r, t);
    var es, a := Both(s, l, r), s.pages[q].ents[j + 1].key;
    if u == l || u == r {
      var o := if u == l then i else i + t;
      assert s'.pages[u].ents == if u == l then es[..t] else es[t..];
      assert s'.pages[u].ents[i] == es[o];
      SpotOwn(s, g, x, q, j, l, r, t, o);
      BothSorted(s, g, x, q, j, l, r);
      if o < t { assert es[o].key < es[t].key; } else { assert es[t].key < es[o].key; }
    } else if u == q && i == j + 1 {
      assert s'.pages[q].ents[i].key == es[t].key;
    } else {
      assert IsSlot(s, g, u, i);
      assert s'.pages[u].ents[i] == s.pages[u].ents[i];
      assert OwnAt(s, g, u, i) && OwnAt(s, g, q, j + 1);
      assert PageOk(s, g, q, x);
      assert s.pages[u].ents[i].key != a;
    }
  }

  lemma RebOutside(s: Ix, g: Shape, x: set<int>, q: int, j: int, l: int, r: int, t: int, s': Ix, g': Shape, e: Key,
                   u: int)
    requires RebCtx(s, g, x, q, j, l, r, t, s', g') && e in g'.own && u in g'.info && g'.info[u].level == 0
    ensures Outside(g', e, u)
  {
    NeighbourFacts(s, g, x, q, j, l, r);
    NewKey(s, g, x, q, j, l, r, t);
    var a, b := s.pages[q].ents[j + 1].key, Both(s, l, r)[t].key;
    assert PageOk(s, g, l, x) && PageOk(s, g, r, x);
    if e != b {
      assert Outside(g, e, u);
      if u == l || u == r { assert Outside(g, e, l) && Outside(g, e, r); }
    } else if s.pages[l].isLeaf {
      if u != l && u != r && !Outside(g', b, u) {
        assert Covers(g, u, b);
        var w := if t < |s.pages[l].ents| then l else r;
        assert Covers(g, w, b);
        LeafUnique(s, g, u, w, b);
      }
    } else {
      SpotOwn(s, g, x, q, j, l, r, t, t);
      assert Outside(g, b, u);
    }
  }

  lemma RebFenced(s: Ix, g: Shape, x: set<int>, q: int, j: int, l: int, r: int, t: int, s': Ix, g': Shape, u: int)
    requires RebCtx(s, g, x, q, j, l, r, t, s', g') && u in g'.info
    ensures Fenced(g', u)
  {
    NeighbourFacts(s, g, x, q, j, l, r);
    NewKey(s, g, x, q, j, l, r, t);
    NewKeyFree(s, g, x, q, j, l, r, t);
    assert PageOk(s, g, q, x) && PageOk(s, g, l, x);
    assert OwnAt(s, g, q, j + 1);
    assert Fenced(g, u) && Fenced(g, l) && Fenced(g, r);
    if g.info[u].level + 1 == g.info[q].level { SepBounds(s, g, NO_PAGE, q, j + 1, u); }
  }

  lemma RebOwnOk(s: Ix, g: Shape, x: set<int>, q: int, j: int, l: int, r: int, t: int, s': Ix, g': Shape)
    requires RebCtx(s, g, x, q, j, l, r, t, s', g')
    ensures OwnOk(s', g')
  {
    forall u, i | IsSlot(s', g', u, i) && 1 <= i ensures OwnAt(s', g', u, i) {
      RebOwnAt(s, g, x, q, j, l, r, t, s', g', u, i);
    }
    forall e, u | e in g'.own && u in g'.info && g'.info[u].level == 0 ensures Outside(g', e, u) {
      RebOutside(s, g, x, q, j, l, r, t, s', g', e, u);
    }
    forall u | u in g'.info ensures Fenced(g', u) {
      RebFenced(s, g, x, q, j, l, r, t, s', g', u);
    }
  }

  // ---------------------------------------------------------------- leaves

  lemma RebChainOk(s: Ix, g: Shape, x: set<int>, q: int, j: int, l: int, r: int, t: int, s': Ix, g': Shape)
    requires RebCtx(s, g, x, q, j, l, r, t, s', g')
    ensures ChainOk(s', g')
  {
    NeighbourFacts(s, g, x, q, j, l, r);
    assert Placed(s, g, LEAF_HEADER_PAGE);
    forall i | 0 <= i < |g'.chain| ensures LinkOk(s', g', i) {
      RebLink(s, g, x, q, j, l, r, t, s', g', i);
    }
    forall i, k | 0 <= i < k < |g'.chain| ensures ChainUp(g', i, k) {
      RebChainUp(s, g, x, q, j, l, r, t, s', g', i, k);
    }
    forall c | c in g'.info && g'.info[c].level == 0 ensures c in g'.chain {
      assert c in g.info && g.info[c].level == 0;
    }
  }

  /** Two neighbouring leaves stand next to each other in the chain. */
  lemma ChainNext(s: Ix, g: Shape, i: int, l: int, r: int)
    requires ChainOk(s, g) && 0 <= i < |g.chain| && g.chain[i] == l
    requires l in g.info && r in g.info && g.info[r].level == 0 && g.info[l].hi == g.info[r].lo
    requires g.info[l].hi != PosInf && Lt(g.info[l].lo, g.info[l].hi)
    ensures i + 1 < |g.chain| && g.chain[i + 1] == r
  {
    assert LinkOk(s, g, i);
    assert r in g.chain;
    var k :| 0 <= k < |g.chain| && g.chain[k] == r;
    assert LinkOk(s, g, k);
    if k < i + 1 {
      if k < i { ChainLoUp(s, g, k, i); }
    } else if k > i + 1 {
      ChainLoUp(s, g, i + 1, k);
    }
  }

  lemma RebLink(s: Ix, g: Shape, x: set<int>, q: int, j: int, l: int, r: int, t: int, s': Ix, g': Shape, i: int)
    requires RebCtx(s, g, x, q, j, l, r, t, s', g') && 0 <= i < |g.chain|
    ensures LinkOk(s', g', i)
  {
    NeighbourFacts(s, g, x, q, j, l, r);
    NewKey(s, g, x, q, j, l, r, t);
    assert LinkOk(s, g, i);
    var c := g.chain[i];
    assert PageOk(s, g, l, x) && PageOk(s, g, r, x) && PageOk(s, g, q, x);
    if c == l { ChainNext(s, g, i, l, r); }
    if i + 1 < |g.chain| {
      assert LinkOk(s, g, i + 1) && ChainUp(g, i, i + 1);
      if g.chain[i + 1] == r { ChainPrev(s, g, i + 1, l, r); }
    }
  }

  lemma ChainPrev(s: Ix, g: Shape, i: int, l: int, r: int)
    requires ChainOk(s, g) && 0 < i < |g.chain| && g.chain[i] == r
    requires l in g.info && r in g.info && g.info[l].level == 0 && g.info[l].hi == g.info[r].lo
    requires g.info[l].hi != PosInf && Lt(g.info[l].lo, g.info[l].hi)
    ensures g.chain[i - 1] == l
  {
    assert l in g.chain;
    var k :| 0 <= k < |g.chain| && g.chain[k] == l;
    assert LinkOk(s, g, i);
    ChainNext(s, g, k, l, r);
    if k + 1 < i { ChainLoUp(s, g, k + 1, i); } else if k + 1 > i { ChainLoUp(s, g, i, k + 1); }
  }

  lemma RebChainUp(s: Ix, g: Shape, x: set<int>, q: int, j: int, l: int, r: int, t: int, s': Ix, g': Shape, i: int,
                   k: int)
    requires RebCtx(s, g, x, q, j, l, r, t, s', g') && 0 <= i < k < |g.chain|
    ensures ChainUp(g', i, k)
  {
    NeighbourFacts(s, g, x, q, j, l, r);
    NewKey(s, g, x, q, j, l, r, t);
    assert ChainUp(g, i, k) && LinkOk(s, g, i) && LinkOk(s, g, k);
    assert PageOk(s, g, l, x) && PageOk(s, g, r, x);
    if g.chain[k] == r {
      ChainPrev(s, g, k, l, r);
      if i < k - 1 { assert ChainUp(g, i, k - 1); }
    }
    if g.chain[i] == r {
      assert LinkOk(s, g, i + 1);
      if i + 1 < k { assert ChainUp(g, i + 1, k); }
    }
  }

  lemma RebLeavesOk(s: Ix, g: Shape, x: set<int>, q: int, j: int, l: int, r: int, t: int, s': Ix, g': Shape)
    requires RebCtx(s, g, x, q, j, l, r, t, s', g')
    ensures LeavesOk(s', g')
  {
    forall c | c in g'.info && g'.info[c].level == 0 ensures LeafOk(s', g', c) {
      NeighbourFacts(s, g, x, q, j, l, r);
      assert PageOk(s, g, l, x) && PageOk(s, g, q, x);
      assert LeafOk(s, g, c);
      if c == l || c == r {
        RebLeafHere(s, g, x, q, j, l, r, t, s', g', c);
      } else {
        forall k | k in g'.m && Covers(g', c, k) ensures HasKey(s'.pages[c].ents, k) {
          assert Covers(g, c, k);
        }
      }
    }
  }

  lemma RebLeafHere(s: Ix, g: Shape, x: set<int>, q: int, j: int, l: int, r: int, t: int, s': Ix, g': Shape, c: int)
    requires RebCtx(s, g, x, q, j, l, r, t, s', g') && s.pages[l].isLeaf && (c == l || c == r)
    ensures LeafOk(s', g', c)
  {
    NeighbourFacts(s, g, x, q, j, l, r);
    assert PageOk(s, g, l, x) && PageOk(s, g, r, x);
    var es := Both(s, l, r);
    assert s'.pages[c].ents == if c == l then es[..t] else es[t..];
    BothMapped(s, g, l, r);
    forall k | k in g'.m && Covers(g', c, k) ensures HasKey(s'.pages[c].ents, k) {
      RebLeafHas(s, g, x, q, j, l, r, t, s', g', c, k);
    }
  }

  lemma BothMapped(s: Ix, g: Shape, l: int, r: int)
    requires LeavesOk(s, g) && l in g.info && r in g.info && g.info[l].level == g.info[r].level == 0
    requires l in s.pages && r in s.pages
    ensures var es := Both(s, l, r);
            forall i {:trigger es[i]} :: 0 <= i < |es| ==> es[i].key in g.m && g.m[es[i].key] == es[i].rid
  {
    assert LeafOk(s, g, l) && LeafOk(s, g, r);
    var es, n := Both(s, l, r), |s.pages[l].ents|;
    forall i | 0 <= i < |es| ensures es[i].key in g.m && g.m[es[i].key] == es[i].rid {
      assert es[i] == if i < n then s.pages[l].ents[i] else s.pages[r].ents[i - n];
    }
  }

  lemma RebLeafHas(s: Ix, g: Shape, x: set<int>, q: int, j: int, l: int, r: int, t: int, s': Ix, g': Shape, c: int,
                   k: Key)
    requires RebCtx(s, g, x, q, j, l, r, t, s', g') && s.pages[l].isLeaf && (c == l || c == r)
    requires k in g.m && Covers(g', c, k)
    ensures c in s'.pages && HasKey(s'.pages[c].ents, k)
  {
    NeighbourFacts(s, g, x, q, j, l, r);
    BothSorted(s, g, x, q, j, l, r);
    NewKey(s, g, x, q, j, l, r, t);
    var es := Both(s, l, r);
    assert s'.pages[c].ents == if c == l then es[..t] else es[t..];
    var o := BothHas(s, g, x, q, j, l, r, t, k);
    if o < t {
      assert es[o].key < es[t].key;
      assert es[..t][o].key == k;
    } else {
      if o > t { assert es[t].key < es[o].key; }
      assert es[t..][o - t].key == k;
    }
  }

  lemma BothHas(s: Ix, g: Shape, x: set<int>, q: int, j: int, l: int, r: int, t: int, k: Key) returns (o: int)
    requires CanRebalance(s, g, x, q, j, l, r, t) && s.pages[l].isLeaf
    requires k in g.m && Below(g.info[l].lo, k) && Above(g.info[r].hi, k)
    ensures 0 <= o < |Both(s, l, r)| && Both(s, l, r)[o].key == k
  {
    NeighbourFacts(s, g, x, q, j, l, r);
    assert PageOk(s, g, l, x) && PageOk(s, g, r, x);
    assert LeafOk(s, g, l) && LeafOk(s, g, r);
    var le, re := s.pages[l].ents, s.pages[r].ents;
    if Covers(g, l, k) {
      assert HasKey(le, k);
      o :| 0 <= o < |le| && le[o].key == k;
    } else {
      assert Covers(g, r, k);
      assert HasKey(re, k);
      var i :| 0 <= i < |re| && re[i].key == k;
      o := |le| + i;
    }
  }

  lemma RebFreeOk(s: Ix, g: Shape, x: set<int>, q: int, j: int, l: int, r: int, t: int, s': Ix, g': Shape)
    requires RebCtx(s, g, x, q, j, l, r, t, s', g')
    ensures FreeOk(s', g')
  {
    forall i | 0 <= i < |g'.free| ensures FreeLink(s', g', i) {
      assert FreeLink(s, g, i);
      assert Placed(s, g, g.free[i]);
    }
    forall c ensures Placed(s', g', c) {
      assert Placed(s, g, c);
    }
  }

  /** Moving the boundary keeps the tree and brings both pages back within their size bounds. */
  lemma RebalanceKeeps(s: Ix, g: Shape, x: set<int>, q: int, j: int, l: int, r: int, t: int, s': Ix, g': Shape)
    requires RebCtx(s, g, x, q, j, l, r, t, s', g')
    ensures Inv(s', g', x - {l, r}, NO_PAGE)
  {
    RebPagesOk(s, g, x, q, j, l, r, t, s', g');
    RebUpsOk(s, g, x, q, j, l, r, t, s', g');
    RebKidsOk(s, g, x, q, j, l, r, t, s', g');
    RebOwnOk(s, g, x, q, j, l, r, t, s', g');
    RebChainOk(s, g, x, q, j, l, r, t, s', g');
    RebLeavesOk(s, g, x, q, j, l, r, t, s', g');
    RebFreeOk(s, g, x, q, j, l, r, t, s', g');
  }

  // ---------------------------------------------------------------- redistribute

  /** `redistribute` with index 0: `l` takes the first pair of its right neighbour. */
  function TakeFirst(s: Ix, q: int, j: nat, l: int, r: int): Ix
    requires l in s.pages && r in s.pages && q in s.pages && l != r && l != q && r != q
    requires |s.pages[r].ents| >= 2 && j + 1 < |s.pages[q].ents|
    requires !s.pages[l].isLeaf ==> s.pages[r].ents[0].rid.pageNo in s.pages
  {
    var e := s.pages[r].ents[0];
    var p1 := s.pages[l := s.pages[l].(ents := s.pages[l].ents + [e])];
    var p2 := p1[r := p1[r].(ents := p1[r].ents[1..])];
    var p3 := p2[q := p2[q].(ents := p2[q].ents[j + 1 := p2[q].ents[j + 1].(key := p2[r].ents[0].key)])];
    s.(pages := if s.pages[l].isLeaf then p3 else p3[e.rid.pageNo := p3[e.rid.pageNo].(parent := l)])
  }

  /** `redistribute` with a positive index: `r` takes the last pair of its left neighbour. */
  function TakeLast(s: Ix, q: int, j: nat, l: int, r: int): Ix
    requires l in s.pages && r in s.pages && q in s.pages && l != r && l != q && r != q
    requires |s.pages[l].ents| >= 2 && j + 1 < |s.pages[q].ents|
    requires !s.pages[r].isLeaf ==> s.pages[l].ents[|s.pages[l].ents| - 1].rid.pageNo in s.pages
  {
    var last := |s.pages[l].ents| - 1;
    var e := s.pages[l].ents[last];
    var p1 := s.pages[r := s.pages[r].(ents := [e] + s.pages[r].ents)];
    var p2 := p1[l := p1[l].(ents := p1[l].ents[..last])];
    var p3 := p2[q := p2[q].(ents := p2[q].ents[j + 1 := p2[q].ents[j + 1].(key := e.key)])];
    s.(pages := if s.pages[r].isLeaf then p3 else p3[e.rid.pageNo := p3[e.rid.pageNo].(parent := r)])
  }

  ghost function RebShape(s: Ix, g: Shape, q: int, j: int, l: int, r: int, t: nat): Shape
    requires q in s.pages && l in s.pages && r in s.pages && l in g.info && r in g.info
    requires 0 <= j < |s.pages[q].ents| - 1 && t < |Both(s, l, r)|
  {
    g.(info := map c | c in g.info :: RebInfo(s, g, l, r, t, c),
       own := RebOwn(s, g, q, s.pages[q].ents[j + 1].key, l, r, t))
  }

  lemma LeafHasNoKids(s: Ix, g: Shape, r: int, c: int)
    requires UpsOk(s, g) && r in s.pages && s.pages[r].isLeaf && r != NO_PAGE
    ensures !KidOf(s, g, r, c)
  {
    if c in g.info { assert UpOk(s, g, c); }
  }

  /** In both directions the code moves the boundary by one pair. */
  lemma TakeFirstKeeps(s: Ix, g: Shape, x: set<int>, q: int, j: nat, l: int, r: int)
    requires l in s.pages && CanRebalance(s, g, x, q, j, l, r, |s.pages[l].ents| + 1)
    ensures l != r && l != q && r != q && |s.pages[r].ents| >= 2
    ensures !s.pages[l].isLeaf ==> s.pages[r].ents[0].rid.pageNo in s.pages
    ensures Inv(TakeFirst(s, q, j, l, r), RebShape(s, g, q, j, l, r, |s.pages[l].ents| + 1), x - {l, r}, NO_PAGE)
  {
    var t := |s.pages[l].ents| + 1;
    NeighbourFacts(s, g, x, q, j, l, r);
    NewKey(s, g, x, q, j, l, r, t);
    var es := Both(s, l, r);
    if !s.pages[l].isLeaf { SpotKid(s, g, x, q, j, l, r, t, t - 1); assert es[t - 1] == s.pages[r].ents[0]; }
    var s' := TakeFirst(s, q, j, l, r);
    assert s.pages[l].ents + [s.pages[r].ents[0]] == es[..t];
    assert s.pages[r].ents[1..] == es[t..];
    assert es[t] == s.pages[r].ents[1];
    forall c | c in s.pages ensures s'.pages[c] == RebPage(s, g, q, j, l, r, t, c) {
      if KidOf(s, g, l, c) || KidOf(s, g, r, c) { KidSpot(s, g, x, q, j, l, r, t, c); }
    }
    assert s'.pages.Keys == s.pages.Keys;
    RebalanceKeeps(s, g, x, q, j, l, r, t, s', RebShape(s, g, q, j, l, r, t));
  }

  lemma TakeLastKeeps(s: Ix, g: Shape, x: set<int>, q: int, j: nat, l: int, r: int)
    requires l in s.pages && CanRebalance(s, g, x, q, j, l, r, |s.pages[l].ents| - 1)
    ensures l != r && l != q && r != q && |s.pages[l].ents| >= 2
    ensures !s.pages[r].isLeaf ==> s.pages[l].ents[|s.pages[l].ents| - 1].rid.pageNo in s.pages
    ensures Inv(TakeLast(s, q, j, l, r), RebShape(s, g, q, j, l, r, |s.pages[l].ents| - 1), x - {l, r}, NO_PAGE)
  {
    var t := |s.pages[l].ents| - 1;
    NeighbourFacts(s, g, x, q, j, l, r);
    NewKey(s, g, x, q, j, l, r, t);
    var es := Both(s, l, r);
    if !s.pages[l].isLeaf { SpotKid(s, g, x, q, j, l, r, t, t); assert es[t] == s.pages[l].ents[t]; }
    var s' := TakeLast(s, q, j, l, r);
    assert s.pages[l].ents[..t] == es[..t];
    assert es[t] == s.pages[l].ents[t];
    assert [s.pages[l].ents[t]] + s.pages[r].ents == es[t..];
    forall c | c in s.pages ensures s'.pages[c] == RebPage(s, g, q, j, l, r, t, c) {
      if KidOf(s, g, l, c) || KidOf(s, g, r, c) { KidSpot(s, g, x, q, j, l, r, t, c); }
    }
    assert s'.pages.Keys == s.pages.Keys;
    RebalanceKeeps(s, g, x, q, j, l, r, t, s', RebShape(s, g, q, j, l, r, t));
  }
}
