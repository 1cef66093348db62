/** `maintain_parent`: refreshing the keys above a page whose first key changed. */
module IxRaise {
  import opened IxModel
  import opened IxSteps

  function SetKey(s: Ix, q: int, i: nat, k: Key): Ix
    requires q in s.pages && i < |s.pages[q].ents|
  {
    SetEnts(s, q, s.pages[q].ents[i := s.pages[q].ents[i].(key := k)])
  }

  // ---------------------------------------------------------------- slot 0

  /** Writing slot 0 moves no boundary. If the child there was waiting for its key the wait moves
      on to the parent itself. */
  lemma SetFirstKeeps(s: Ix, g: Shape, x: set<int>, c: int, q: int, b: Key)
    requires Inv(s, g, x, c) && IsSlot(s, g, q, 0) && Child(s.pages[q], 0) == c
    requires c in s.pages && (!s.pages[c].isLeaf ==> |s.pages[c].ents| > 0 && s.pages[c].ents[0].key == b)
    ensures Inv(SetKey(s, q, 0, b), g, x, q)
  {
    var s' := SetKey(s, q, 0, b);
    assert PageOk(s, g, q, x);
    forall u | u in g.info ensures PageOk(s', g, u, x) { assert PageOk(s, g, u, x); }
    SetFirstLinks(s, g, x, c, q, b);
    forall u, i | IsSlot(s', g, u, i) && 1 <= i ensures OwnAt(s', g, u, i) { assert OwnAt(s, g, u, i); }
    forall u | u in g.info && g.info[u].level == 0 ensures SameLeaf(s, g, s', g, u) { assert PageOk(s, g, u, x); }
    assert Placed(s, g, LEAF_HEADER_PAGE);
    LeafFrameKeeps(s, g, s', g);
    forall i | 0 <= i < |g.free| ensures FreeLink(s', g, i) {
      assert FreeLink(s, g, i) && Placed(s, g, g.free[i]);
    }
    forall u ensures Placed(s', g, u) { assert Placed(s, g, u); }
  }

  lemma SetFirstLinks(s: Ix, g: Shape, x: set<int>, c: int, q: int, b: Key)
    requires UpsOk(s, g) && KidsOk(s, g, c) && IsSlot(s, g, q, 0) && Child(s.pages[q], 0) == c
    requires c in s.pages && (!s.pages[c].isLeaf ==> |s.pages[c].ents| > 0 && s.pages[c].ents[0].key == b)
    ensures UpsOk(SetKey(s, q, 0, b), g) && KidsOk(SetKey(s, q, 0, b), g, q)
  {
    var s' := SetKey(s, q, 0, b);
    forall u | u in g.info ensures UpOk(s', g, u) { assert UpOk(s, g, u); }
    forall u, i | IsSlot(s', g, u, i) ensures KidOk(s', g, u, i, q) {
      assert KidOk(s, g, u, i, c) && KidOk(s, g, q, 0, c);
    }
  }

  /** Nothing waits any more once the slot above already shows the key, or at the root. */
  lemma StopWaiting(s: Ix, g: Shape, x: set<int>, c: int)
    requires Inv(s, g, x, c)
    requires c in g.info && c in s.pages
    requires c == s.root || s.pages[c].isLeaf ||
             (s.pages[c].parent in s.pages && g.info[c].idx < |s.pages[s.pages[c].parent].ents| && |s.pages[c].ents| > 0
              && s.pages[s.pages[c].parent].ents[g.info[c].idx].key == s.pages[c].ents[0].key)
    ensures Inv(s, g, x, NO_PAGE)
  {
    forall u, i | IsSlot(s, g, u, i) ensures KidOk(s, g, u, i, NO_PAGE) {
      assert KidOk(s, g, u, i, c);
    }
  }

  lemma StartWaiting(s: Ix, g: Shape, x: set<int>, c: int)
    requires Inv(s, g, x, NO_PAGE)
    ensures Inv(s, g, x, c)
  {
    forall u, i | IsSlot(s, g, u, i) ensures KidOk(s, g, u, i, c) {
      assert KidOk(s, g, u, i, NO_PAGE);
      assert PageOk(s, g, Child(s.pages[u], i), x);
    }
  }

  // ---------------------------------------------------------------- a separator

  /** The boundary at `a` moves up to `b`, on both sides and at every level that shares it. */
  function MoveBound(t: Bound, a: Key, b: Key): Bound {
    if t == At(a) then At(b) else t
  }

  ghost function RaiseShape(g: Shape, q: int, level: nat, a: Key, b: Key): Shape {
    g.(info := map c | c in g.info ::
        g.info[c].(lo := MoveBound(g.info[c].lo, a, b), hi := MoveBound(g.info[c].hi, a, b)),
       own := map e | e in g.own.Keys + {b} && e != a :: if e == b then Sep(q, level) else g.own[e])
  }

  /** `p` is the leaf whose interval starts at the separator `a` in slot `j` of `q`; its first key is `b`. */
  ghost predicate CanRaise(s: Ix, g: Shape, x: set<int>, c: int, q: int, j: int, p: int, a: Key, b: Key) {
    && Inv(s, g, x, c)
    && IsSlot(s, g, q, j) && 1 <= j && Child(s.pages[q], j) == c && s.pages[q].ents[j].key == a
    && c in s.pages && c in g.info && (!s.pages[c].isLeaf ==> |s.pages[c].ents| > 0 && s.pages[c].ents[0].key == b)
    && p in s.pages && p in g.info && g.info[p].level == 0 && g.info[p].lo == g.info[c].lo
    && |s.pages[p].ents| > 0 && s.pages[p].ents[0].key == b
    && a != b
  }

  lemma RaiseFacts(s: Ix, g: Shape, x: set<int>, c: int, q: int, j: int, p: int, a: Key, b: Key)
    requires CanRaise(s, g, x, c, q, j, p, a, b)
    ensures g.info[p].lo == At(a) && g.info[c].lo == At(a) && a < b && Lt(At(b), g.info[p].hi)
    ensures g.info.Keys <= s.pages.Keys
    ensures b !in g.own && a in g.own && g.own[a] == Sep(q, g.info[q].level)
  {
    assert KidOk(s, g, q, j, c) && PageOk(s, g, p, x);
    assert Below(g.info[p].lo, s.pages[p].ents[0].key) && Above(g.info[p].hi, s.pages[p].ents[0].key);
    assert OwnAt(s, g, q, j);
    forall u | u in g.info ensures u in s.pages { assert PageOk(s, g, u, x); }
    if b in g.own { OutsideOf(s, g, b, p); }
  }

  ghost predicate RaiseCtx(s: Ix, g: Shape, x: set<int>, c: int, q: int, j: int, p: int, a: Key, b: Key, s': Ix,
                           g': Shape) {
    && CanRaise(s, g, x, c, q, j, p, a, b)
    && s' == SetKey(s, q, j, b)
    && g' == RaiseShape(g, q, g.info[q].level, a, b)
  }

  /** No separator other than `a` lies between the old and the new boundary. */
  lemma NothingBetween(s: Ix, g: Shape, x: set<int>, c: int, q: int, j: int, p: int, a: Key, b: Key, e: Key)
    requires CanRaise(s, g, x, c, q, j, p, a, b)
    requires e in g.own && a < e
    ensures b < e
  {
    RaiseFacts(s, g, x, c, q, j, p, a, b);
    OutsideOf(s, g, e, p);
  }

  lemma RaisePage(s: Ix, g: Shape, x: set<int>, c: int, q: int, j: int, p: int, a: Key, b: Key, s': Ix, g': Shape,
                  u: int)
    requires RaiseCtx(s, g, x, c, q, j, p, a, b, s', g') && u in g'.info
    ensures PageOk(s', g', u, x)
  {
    RaiseFacts(s, g, x, c, q, j, p, a, b);
    assert PageOk(s, g, u, x) && Fenced(g, u);
    var ents, f := s.pages[u].ents, g.info[u];
    if f.lo == At(a) {
      if f.hi.At? { NothingBetween(s, g, x, c, q, j, p, a, b, f.hi.key); }
      if s.pages[u].isLeaf {
        assert PageOk(s, g, p, x);
        SameStart(s, g, u, p);
      } else {
        forall i | 1 <= i < |ents| ensures b < ents[i].key {
          assert OwnAt(s, g, u, i);
          NothingBetween(s, g, x, c, q, j, p, a, b, ents[i].key);
        }
      }
    }
    if u == q { RaiseParent(s, g, x, c, q, j, p, a, b, s', g'); }
  }

  lemma SameStart(s: Ix, g: Shape, u: int, p: int)
    requires ChainOk(s, g) && u in g.info && p in g.info && g.info[u].level == 0 && g.info[p].level == 0
    requires g.info[u].lo == g.info[p].lo
    ensures u == p
  {
    assert u in g.chain && p in g.chain;
    var i :| 0 <= i < |g.chain| && g.chain[i] == u;
    var k :| 0 <= k < |g.chain| && g.chain[k] == p;
    if i < k { ChainLoUp(s, g, i, k); } else if k < i { ChainLoUp(s, g, k, i); }
  }

  lemma RaiseParent(s: Ix, g: Shape, x: set<int>, c: int, q: int, j: int, p: int, a: Key, b: Key, s': Ix, g': Shape)
    requires RaiseCtx(s, g, x, c, q, j, p, a, b, s', g')
    ensures PageOk(s', g', q, x)
  {
    RaiseFacts(s, g, x, c, q, j, p, a, b);
    assert PageOk(s, g, q, x) && PageOk(s, g, s.root, x) && Fenced(g, q) && OwnAt(s, g, q, j);
    var ents, f := s.pages[q].ents, g.info[q];
    assert f.lo != At(a) && f.hi != At(a);
    assert Lt(At(b), f.hi) by {
      assert Above(f.hi, ents[j].key);
      if f.hi.At? { NothingBetween(s, g, x, c, q, j, p, a, b, f.hi.key); }
    }
    forall i | j < i < |ents| ensures b < ents[i].key {
      assert OwnAt(s, g, q, i);
      NothingBetween(s, g, x, c, q, j, p, a, b, ents[i].key);
    }
    assert Below(f.lo, ents[j].key);
  }

  lemma RaiseLinks(s: Ix, g: Shape, x: set<int>, c: int, q: int, j: int, p: int, a: Key, b: Key, s': Ix, g': Shape)
    requires RaiseCtx(s, g, x, c, q, j, p, a, b, s', g')
    ensures UpsOk(s', g') && KidsOk(s', g', NO_PAGE)
  {
    RaiseFacts(s, g, x, c, q, j, p, a, b);
    forall u | u in g'.info ensures UpOk(s', g', u) { assert UpOk(s, g, u); }
    forall u, i | IsSlot(s', g', u, i) ensures KidOk(s', g', u, i, NO_PAGE) {
      RaiseKid(s, g, x, c, q, j, p, a, b, s', g', u, i);
    }
  }

  lemma RaiseKid(s: Ix, g: Shape, x: set<int>, c: int, q: int, j: int, p: int, a: Key, b: Key, s': Ix, g': Shape,
                 u: int, i: int)
    requires RaiseCtx(s, g, x, c, q, j, p, a, b, s', g') && IsSlot(s', g', u, i)
    ensures KidOk(s', g', u, i, NO_PAGE)
  {
    RaiseFacts(s, g, x, c, q, j, p, a, b);
    assert KidOk(s, g, u, i, c) && KidOk(s, g, q, j, c);
    assert PageOk(s, g, q, x) && PageOk(s, g, u, x);
    var ents := s.pages[u].ents;
    if 1 <= i { assert OwnAt(s, g, u, i); }
    if i + 1 < |ents| { assert OwnAt(s, g, u, i + 1); }
    var d := Child(s.pages[u], i);
    assert d == c ==> u == q && i == j;
    assert d == q ==> u != q;
  }

  lemma RaiseOwn(s: Ix, g: Shape, x: set<int>, c: int, q: int, j: int, p: int, a: Key, b: Key, s': Ix, g': Shape)
    requires RaiseCtx(s, g, x, c, q, j, p, a, b, s', g')
    ensures OwnOk(s', g')
  {
    RaiseFacts(s, g, x, c, q, j, p, a, b);
    assert PageOk(s, g, q, x);
    forall u, i | IsSlot(s', g', u, i) && 1 <= i ensures OwnAt(s', g', u, i) {
      assert OwnAt(s, g, u, i);
    }
    forall e, u | e in g'.own && u in g'.info && g'.info[u].level == 0 ensures Outside(g', e, u) {
      RaiseOutside(s, g, x, c, q, j, p, a, b, s', g', e, u);
    }
    forall u | u in g'.info ensures Fenced(g', u) { assert Fenced(g, u); }
  }

  lemma RaiseOutside(s: Ix, g: Shape, x: set<int>, c: int, q: int, j: int, p: int, a: Key, b: Key, s': Ix, g': Shape,
                     e: Key, u: int)
    requires RaiseCtx(s, g, x, c, q, j, p, a, b, s', g') && e in g'.own && u in g'.info && g'.info[u].level == 0
    ensures Outside(g', e, u)
  {
    RaiseFacts(s, g, x, c, q, j, p, a, b);
    if e == b {
      if u != p && !Outside(g', b, u) {
        assert Covers(g, u, b) && Covers(g, p, b);
        LeafUnique(s, g, u, p, b);
      }
    } else {
      assert Outside(g, e, u);
      if a < e { NothingBetween(s, g, x, c, q, j, p, a, b, e); }
    }
  }

  lemma RaiseChain(s: Ix, g: Shape, x: set<int>, c: int, q: int, j: int, p: int, a: Key, b: Key, s': Ix, g': Shape)
    requires RaiseCtx(s, g, x, c, q, j, p, a, b, s', g')
    ensures ChainOk(s', g')
  {
    RaiseFacts(s, g, x, c, q, j, p, a, b);
    assert PageOk(s, g, q, x) && Placed(s, g, LEAF_HEADER_PAGE);
    forall i | 0 <= i < |g'.chain| ensures LinkOk(s', g', i) {
      assert LinkOk(s, g, i);
    }
    forall i, k | 0 <= i < k < |g'.chain| ensures ChainUp(g', i, k) {
      RaiseChainUp(s, g, x, c, q, j, p, a, b, s', g', i, k);
    }
    forall u | u in g'.info && g'.info[u].level == 0 ensures u in g'.chain {
      assert u in g.info && g.info[u].level == 0;
    }
  }

  lemma RaiseChainUp(s: Ix, g: Shape, x: set<int>, c: int, q: int, j: int, p: int, a: Key, b: Key, s': Ix, g': Shape,
                     i: int, k: int)
    requires RaiseCtx(s, g, x, c, q, j, p, a, b, s', g') && 0 <= i < k < |g.chain|
    ensures ChainUp(g', i, k)
  {
    RaiseFacts(s, g, x, c, q, j, p, a, b);
    assert ChainUp(g, i, k) && LinkOk(s, g, i) && LinkOk(s, g, k);
    var u, v := g.chain[i], g.chain[k];
    if g.info[u].lo == At(a) {
      assert Fenced(g, v);
      if g.info[v].lo.At? { NothingBetween(s, g, x, c, q, j, p, a, b, g.info[v].lo.key); }
    }
  }

  lemma RaiseLeaves(s: Ix, g: Shape, x: set<int>, c: int, q: int, j: int, p: int, a: Key, b: Key, s': Ix, g': Shape)
    requires RaiseCtx(s, g, x, c, q, j, p, a, b, s', g')
    ensures LeavesOk(s', g')
  {
    RaiseFacts(s, g, x, c, q, j, p, a, b);
    assert PageOk(s, g, q, x) && PageOk(s, g, p, x);
    forall u | u in g'.info && g'.info[u].level == 0 ensures LeafOk(s', g', u) {
      assert LeafOk(s, g, u) && LeafOk(s, g, p) && PageOk(s, g, u, x);
      forall k | k in g'.m && Covers(g', u, k) ensures HasKey(s'.pages[u].ents, k) {
        if !Covers(g, u, k) {
          assert Covers(g, p, k) && k < b;
          assert HasKey(s.pages[p].ents, k);
          NoSmaller(s.pages[p].ents, k);
        }
      }
    }
  }

  lemma NoSmaller(ents: seq<Entry>, k: Key)
    requires Sorted(ents, 0) && HasKey(ents, k)
    ensures |ents| > 0 && ents[0].key <= k
  {
  }

  /** Raising a separator to the first key of the leaf that starts there keeps the tree. */
  lemma RaiseKeeps(s: Ix, g: Shape, x: set<int>, c: int, q: int, j: int, p: int, a: Key, b: Key)
    requires CanRaise(s, g, x, c, q, j, p, a, b)
    ensures Inv(SetKey(s, q, j, b), RaiseShape(g, q, g.info[q].level, a, b), x, NO_PAGE)
  {
    var s', g' := SetKey(s, q, j, b), RaiseShape(g, q, g.info[q].level, a, b);
    forall u | u in g'.info ensures PageOk(s', g', u, x) {
      RaisePage(s, g, x, c, q, j, p, a, b, s', g', u);
    }
    RaiseLinks(s, g, x, c, q, j, p, a, b, s', g');
    RaiseOwn(s, g, x, c, q, j, p, a, b, s', g');
    RaiseChain(s, g, x, c, q, j, p, a, b, s', g');
    RaiseLeaves(s, g, x, c, q, j, p, a, b, s', g');
    forall i | 0 <= i < |g'.free| ensures FreeLink(s', g', i) {
      assert FreeLink(s, g, i);
      assert Placed(s, g, g.free[i]);
    }
    forall u ensures Placed(s', g', u) { assert Placed(s, g, u); }
  }
}
