/** The record file of a table: slot bitmaps, a free-page list threaded through the page headers,
    in-memory slot reservations, quarantined slots and the set of active insert pages. */
module HeapFile {
  import opened Basics
  import IxModel

  type Rid = IxModel.Rid

  const NO_PAGE: int := -1
  const FIRST_PAGE: int := 1
  const MAX_ACTIVE: nat := 16

  /** `used` are the set bits, `count` is the header's record counter. */
  datatype Page = Page(used: set<int>, count: int, next: int)

  type Pages = map<int, Page>

  datatype Outcome = Done | PageNotExist | RecordNotFound | SlotOccupied | BadReservation

  // ---------------------------------------------------------------- the free-page list

  ghost predicate LinkAt(pages: Pages, free: seq<int>, i: int)
    requires 0 <= i < |free|
  {
    && free[i] in pages && free[i] != NO_PAGE
    && pages[free[i]].next == (if i + 1 < |free| then free[i + 1] else NO_PAGE)
  }

  /** Following the links from `first` visits exactly `free`, no page twice. */
  ghost predicate ListIs(pages: Pages, first: int, free: seq<int>) {
    && first == (if free == [] then NO_PAGE else free[0])
    && NoRepeats(free) && NO_PAGE !in free
    && forall i {:trigger LinkAt(pages, free, i)} :: 0 <= i < |free| ==> LinkAt(pages, free, i)
  }

  ghost predicate SameRecords(a: Pages, b: Pages) {
    a.Keys == b.Keys && forall p :: p in a ==> a[p].used == b[p].used && a[p].count == b[p].count
  }

  predicate Stored(pages: Pages, rid: Rid) {
    rid.pageNo in pages && rid.slotNo in pages[rid.pageNo].used
  }

  function SetNext(pages: Pages, p: int, next: int): Pages
    requires p in pages
  {
    pages[p := pages[p].(next := next)]
  }

  lemma PushKeepsList(pages: Pages, first: int, free: seq<int>, p: int)
    requires ListIs(pages, first, free) && p in pages && p != NO_PAGE && p !in free
    ensures ListIs(SetNext(pages, p, first), p, [p] + free)
  {
    var pages', free' := SetNext(pages, p, first), [p] + free;
    forall i | 0 <= i < |free'| ensures LinkAt(pages', free', i) {
      if i > 0 {
        assert LinkAt(pages, free, i - 1);
      }
    }
  }

  lemma PopKeepsList(pages: Pages, first: int, free: seq<int>)
    requires ListIs(pages, first, free) && free != []
    ensures LinkAt(pages, free, 0)
    ensures ListIs(SetNext(pages, first, NO_PAGE), pages[first].next, free[1..])
    ensures forall p :: p in free[1..] <==> p in free && p != first
  {
    assert LinkAt(pages, free, 0);
    var pages', free' := SetNext(pages, first, NO_PAGE), free[1..];
    assert free == [first] + free';
    forall i | 0 <= i < |free'| ensures LinkAt(pages', free', i) {
      assert LinkAt(pages, free, i + 1);
    }
  }

  lemma CutKeepsList(pages: Pages, first: int, free: seq<int>, i: nat)
    requires ListIs(pages, first, free) && i + 1 < |free|
    ensures LinkAt(pages, free, i) && LinkAt(pages, free, i + 1)
    ensures ListIs(SetNext(SetNext(pages, free[i], pages[free[i + 1]].next), free[i + 1], NO_PAGE), first,
                   free[..i + 1] + free[i + 2..])
    ensures forall p :: p in free[..i + 1] + free[i + 2..] <==> p in free && p != free[i + 1]
  {
    assert LinkAt(pages, free, i) && LinkAt(pages, free, i + 1);
    var pages' := SetNext(SetNext(pages, free[i], pages[free[i + 1]].next), free[i + 1], NO_PAGE);
    var free' := free[..i + 1] + free[i + 2..];
    assert free == free[..i + 1] + [free[i + 1]] + free[i + 2..];
    forall j | 0 <= j < |free'| ensures LinkAt(pages', free', j) {
      assert LinkAt(pages, free, if j <= i then j else j + 1);
    }
  }

  lemma SameLinksKeepList(a: Pages, b: Pages, first: int, free: seq<int>)
    requires ListIs(a, first, free)
    requires forall p :: p in a ==> p in b && b[p].next == a[p].next
    ensures ListIs(b, first, free)
  {
    forall i | 0 <= i < |free| ensures LinkAt(b, free, i) {
      assert LinkAt(a, free, i);
    }
  }

  /** A list is read off the links in one way only. */
  lemma {:induction false} ListPrefix(pages: Pages, first: int, free: seq<int>, other: Pages, start: int,
                                      walk: seq<int>, i: nat)
    requires ListIs(pages, first, free) && ListIs(other, start, walk) && i < |free|
    requires start in pages && start != NO_PAGE && start in free && other == SetNext(pages, start, first)
    requires forall j :: 0 <= j < i ==> free[j] != start
    ensures i + 1 < |walk| && walk[i + 1] == free[i]
  {
    if i == 0 {
      assert LinkAt(other, walk, 0) && LinkAt(pages, free, 0);
    } else {
      ListPrefix(pages, first, free, other, start, walk, i - 1);
      assert LinkAt(other, walk, i) && LinkAt(pages, free, i - 1) && LinkAt(pages, free, i);
    }
  }

  /** `release_page_handle` after a delete keeps the list a list exactly when the page was not
      listed. Pushing a listed page ties the list into a cycle, on which no walk ends. */
  lemma PushIsSafeIffUnlisted(pages: Pages, first: int, free: seq<int>, p: int)
    requires ListIs(pages, first, free) && p in pages && p != NO_PAGE
    ensures (exists walk :: ListIs(SetNext(pages, p, first), p, walk)) <==> p !in free
  {
    if p !in free {
      PushKeepsList(pages, first, free, p);
    } else {
      var k := FirstAt(free, p);
      forall walk | ListIs(SetNext(pages, p, first), p, walk) ensures false {
        ListPrefix(pages, first, free, SetNext(pages, p, first), p, walk, k);
      }
    }
  }

  function Marked(pages: Pages, rid: Rid): Pages
    requires rid.pageNo in pages
  {
    var page := pages[rid.pageNo];
    pages[rid.pageNo := Page(page.used + {rid.slotNo}, page.count + 1, page.next)]
  }

  function Cleared(pages: Pages, rid: Rid): Pages
    requires rid.pageNo in pages
  {
    var page := pages[rid.pageNo];
    pages[rid.pageNo := Page(page.used - {rid.slotNo}, page.count - 1, page.next)]
  }

  /** Pages and list head after `delete_record` of a stored record. */
  function Deleted(pages: Pages, first: int, cap: nat, rid: Rid): (Pages, int)
    requires rid.pageNo in pages
  {
    var p := rid.pageNo;
    if pages[p].count == cap then (SetNext(Cleared(pages, rid), p, first), p) else (Cleared(pages, rid), first)
  }

  /** A delete leaves a list that walks can finish exactly when its page was not both full and still
      listed, the state an insert is in between publishing the last slot and completing. */
  lemma DeleteIsSafeIff(pages: Pages, first: int, free: seq<int>, cap: nat, rid: Rid)
    requires ListIs(pages, first, free) && rid.pageNo in pages && rid.pageNo != NO_PAGE
    ensures (exists walk :: ListIs(Deleted(pages, first, cap, rid).0, Deleted(pages, first, cap, rid).1, walk))
            <==> !(pages[rid.pageNo].count == cap && rid.pageNo in free)
  {
    SameLinksKeepList(pages, Cleared(pages, rid), first, free);
    if pages[rid.pageNo].count == cap {
      PushIsSafeIffUnlisted(Cleared(pages, rid), first, free, rid.pageNo);
      var pushed := SetNext(Cleared(pages, rid), rid.pageNo, first);
      assert Deleted(pages, first, cap, rid) == (pushed, rid.pageNo);
      assert (exists walk :: ListIs(pushed, rid.pageNo, walk)) <==> rid.pageNo !in free;
      if rid.pageNo !in free {
        PushKeepsList(Cleared(pages, rid), first, free, rid.pageNo);
        assert ListIs(Deleted(pages, first, cap, rid).0, Deleted(pages, first, cap, rid).1, [rid.pageNo] + free);
      }
    } else {
      assert ListIs(Deleted(pages, first, cap, rid).0, Deleted(pages, first, cap, rid).1, free);
    }
  }

  ghost function FirstAt(s: seq<int>, x: int): (k: nat)
    requires x in s
    ensures k < |s| && s[k] == x && forall j :: 0 <= j < k ==> s[j] != x
    decreases |s|
  {
    if s[0] == x then 0 else 1 + FirstAt(s[1..], x)
  }

  // ---------------------------------------------------------------- counting

  ghost function Upto(n: nat): (s: set<int>)
    ensures |s| == n && forall i :: i in s <==> 0 <= i < n
  {
    if n == 0 then {} else Upto(n - 1) + {n - 1}
  }

  /** The counter reaches the capacity exactly when every bit is set. */
  lemma FullIffAllSet(used: set<int>, cap: nat)
    requires forall s :: s in used ==> 0 <= s < cap
    ensures |used| <= cap && (|used| == cap <==> forall s :: 0 <= s < cap ==> s in used)
  {
    SubsetSize(used, Upto(cap));
    if forall s :: 0 <= s < cap ==> s in used {
      SubsetSize(Upto(cap), used);
    }
  }

  // ---------------------------------------------------------------- handle and reservations

  class InsertSlotReservation {
    var owner: RmFileHandle?
    var rid: Rid
    var active: bool

    constructor (owner: RmFileHandle?, rid: Rid)
      ensures this.owner == owner && this.rid == rid && active
    {
      this.owner, this.rid, active := owner, rid, true;
    }
  }

  class RmFileHandle {
    const cap: nat
    var pages: Pages
    var first: int
    var numPages: int
    var quarantined: set<Rid>
    var reserved: set<Rid>
    var reservedCount: int
    var active: seq<int>
    var cursor: nat
    /** The free list as a sequence. */
    ghost var free: seq<int>
    /** Every reservation handed out, and the live one of each reserved slot. */
    ghost var tokens: set<InsertSlotReservation>
    ghost var holder: map<Rid, InsertSlotReservation>
    /** Reserved slots whose publication filled their page and whose completion is still to come. */
    ghost var closing: set<Rid>

    predicate Available(p: int, slot: int)
      reads this`pages, this`reserved, this`quarantined
    {
      && p in pages && 0 <= slot < cap && slot !in pages[p].used
      && IxModel.Rid(p, slot) !in quarantined && IxModel.Rid(p, slot) !in reserved
    }

    /** Every active insert page is on the free list. */
    ghost predicate ActiveListed()
      reads this`active, this`free
    {
      forall i :: 0 <= i < |active| ==> active[i] in free
    }

    /** Enough active pages, one of them with room: a reservation needs no new page. */
    ghost predicate RoomThere()
      reads this`pages, this`reserved, this`quarantined, this`active
    {
      |active| >= MAX_ACTIVE && exists i :: 0 <= i < |active| && HasRoom(active[i])
    }

    twostate predicate Steady()
      reads this
    {
      pages == old(pages) && free == old(free) && active == old(active)
    }

    ghost predicate HasRoom(p: int)
      reads this`pages, this`reserved, this`quarantined
    {
      exists s :: Available(p, s)
    }

    predicate IsSlot(rid: Rid)
      reads this`pages
    {
      rid.pageNo in pages && 0 <= rid.slotNo < cap
    }

    predicate Full(p: int)
      reads this`pages
    {
      p in pages && pages[p].count == cap
    }

    ghost predicate PageOk(p: int)
      reads this`pages
    {
      p in pages && pages[p].count == |pages[p].used| && forall s :: s in pages[p].used ==> 0 <= s < cap
    }

    ghost predicate Layout()
      reads this`pages, this`numPages, this`first, this`free
    {
      && cap > 0 && numPages >= FIRST_PAGE
      && (forall p {:trigger p in pages} :: p in pages <==> FIRST_PAGE <= p < numPages)
      && (forall p {:trigger PageOk(p)} :: p in pages ==> PageOk(p))
      && ListIs(pages, first, free)
    }

    ghost predicate Slots()
      reads this`pages, this`reserved, this`quarantined, this`active
    {
      && (forall rid :: rid in reserved ==> IsSlot(rid))
      && (forall rid :: rid in quarantined ==> IsSlot(rid))
      && NoRepeats(active) && forall i :: 0 <= i < |active| ==> active[i] in pages
    }

    ghost predicate Live(t: InsertSlotReservation)
      reads t
    {
      t.owner == this && t.active
    }

    ghost predicate Reservations()
      reads this`reserved, this`holder, this`reservedCount, this`closing, this`tokens, tokens
    {
      && reserved == holder.Keys && reservedCount == |reserved| && closing <= reserved
      && (forall rid {:trigger HeldOk(rid)} :: rid in holder ==> HeldOk(rid))
      && (forall t {:trigger TokenOk(t)} :: t in tokens ==> TokenOk(t))
    }

    ghost predicate HeldOk(rid: Rid)
      reads this`holder, this`tokens, tokens
    {
      rid in holder && holder[rid] in tokens && Live(holder[rid]) && holder[rid].rid == rid
    }

    /** A live reservation is the one its slot is held by. */
    ghost predicate TokenOk(t: InsertSlotReservation)
      reads this`holder, t
    {
      Live(t) ==> t.rid in holder && holder[t.rid] == t
    }

    /** A full page is off the list, unless the insert that filled it has yet to complete. */
    ghost predicate FullUnlisted()
      reads this`pages, this`free, this`closing
    {
      forall p {:trigger Full(p)} :: p in free && Full(p) ==> exists rid :: rid in closing && rid.pageNo == p
    }

    ghost predicate Valid()
      reads this, tokens
    {
      Layout() && Slots() && Reservations() && FullUnlisted()
    }

    constructor (cap: nat)
      requires cap > 0
      ensures Valid() && this.cap == cap && pages == map[] && numPages == FIRST_PAGE
      ensures reserved == quarantined == closing == {} && tokens == {} && active == []
    {
      this.cap := cap;
      pages, first, numPages := map[], NO_PAGE, FIRST_PAGE;
      quarantined, reserved, reservedCount, active, cursor := {}, {}, 0, [], 0;
      free, tokens, holder, closing := [], {}, map[], {};
    }

    // -------------------------------------------------------------- free-list helpers

    method FirstAvailableSlot(p: int) returns (slot: nat)
      requires p in pages
      ensures slot <= cap && (slot < cap ==> Available(p, slot))
      ensures forall s :: 0 <= s < slot ==> !Available(p, s)
    {
      slot := 0;
      while slot < cap
        invariant slot <= cap
        invariant forall s :: 0 <= s < slot ==> !Available(p, s)
      {
        if Available(p, slot) {
          return;
        }
        slot := slot + 1;
      }
    }

    /** Takes `target` off the free list; nothing happens when it is not listed. */
    method UnlinkFreePageIfNeeded(target: int)
      requires ListIs(pages, first, free) && target in pages && target != NO_PAGE
      modifies this`pages, this`first, this`free
      ensures ListIs(pages, first, free) && forall p :: p in free <==> p in old(free) && p != target
      ensures SameRecords(old(pages), pages) && |free| <= |old(free)| && (target in old(free) ==> |free| < |old(free)|)
    {
      if first == target {
        PopKeepsList(pages, first, free);
        first, pages, free := pages[target].next, SetNext(pages, target, NO_PAGE), free[1..];
        return;
      }
      var prev := first;
      ghost var i := 0;
      while prev != NO_PAGE
        invariant 0 <= i <= |free| && prev == (if i < |free| then free[i] else NO_PAGE)
        invariant forall j :: 0 <= j <= i && j < |free| ==> free[j] != target
        invariant pages == old(pages) && first == old(first) && free == old(free)
        decreases |free| - i
      {
        assert LinkAt(pages, free, i);
        var next := pages[prev].next;
        if next == target {
          CutKeepsList(pages, first, free, i);
          pages := SetNext(SetNext(pages, prev, pages[target].next), target, NO_PAGE);
          free := free[..i + 1] + free[i + 2..];
          return;
        }
        prev, i := next, i + 1;
      }
    }

    method CreateNewPage() returns (p: int)
      requires Layout()
      modifies this`pages, this`first, this`numPages, this`free
      ensures Layout() && p == old(numPages) && numPages == p + 1
      ensures pages == old(pages)[p := Page({}, 0, old(first))] && free == [p] + old(free)
    {
      p := numPages;
      ghost var before := pages[p := Page({}, 0, NO_PAGE)];
      SameLinksKeepList(pages, before, first, free);
      assert p !in free by {
        forall i | 0 <= i < |free| ensures free[i] != p { assert LinkAt(pages, free, i); }
      }
      PushKeepsList(before, first, free, p);
      assert before[p := before[p].(next := first)] == pages[p := Page({}, 0, first)];
      pages := pages[p := Page({}, 0, first)];
      free := [p] + free;
      first := p;
      numPages := numPages + 1;
      forall q | q in pages ensures PageOk(q) {
        if q != p { assert old(PageOk(q)); }
      }
    }

    /** Head of the free list after its exhausted pages are unlinked, or a new page: in any case a
        listed page with an available slot. */
    method CreatePageHandle() returns (p: int)
      requires Layout() && Slots() && FullUnlisted()
      modifies this`pages, this`first, this`numPages, this`free
      ensures Layout() && Slots() && FullUnlisted() && first == p && p in free
      ensures HasRoom(p)
      ensures numPages >= old(numPages) && Grown(old(pages), pages)
    {
      while first != NO_PAGE
        invariant Layout() && Slots() && FullUnlisted() && numPages == old(numPages)
        invariant SameRecords(old(pages), pages)
        decreases |free|
      {
        assert LinkAt(pages, free, 0);
        p := first;
        var slot := FirstAvailableSlot(p);
        if slot < cap {
          return;
        }
        Unlink(p);
      }
      p := NewPage();
      assert Available(p, 0);
    }

    /** `UnlinkFreePageIfNeeded` keeps everything but the list entry. */
    method Unlink(p: int)
      requires Layout() && Slots() && p in pages
      modifies this`pages, this`first, this`free
      ensures Layout() && Slots() && SameRecords(old(pages), pages)
      ensures forall q :: q in free <==> q in old(free) && q != p
      ensures |free| <= |old(free)| && (p in old(free) ==> |free| < |old(free)|)
      ensures old(ListedOk(p)) ==> FullUnlisted()
    {
      UnlinkFreePageIfNeeded(p);
      forall q | q in pages ensures PageOk(q) { assert old(PageOk(q)); }
      forall q | q in free && Full(q) && old(ListedOk(p)) ensures exists rid :: rid in closing && rid.pageNo == q {
        assert old(Full(q));
      }
    }

    /** `FullUnlisted` but for page `except`. */
    ghost predicate ListedOk(except: int)
      reads this`pages, this`free, this`closing
    {
      forall p {:trigger Full(p)} :: p in free && p != except && Full(p) ==>
          exists rid :: rid in closing && rid.pageNo == p
    }

    method NewPage() returns (p: int)
      requires Layout() && Slots()
      modifies this`pages, this`first, this`numPages, this`free
      ensures Layout() && Slots() && p == old(numPages) && numPages == p + 1 && first == p && free == [p] + old(free)
      ensures Grown(old(pages), pages) && p in pages && p !in old(pages) && pages[p].used == {}
      ensures forall s :: 0 <= s < cap ==> Available(p, s)
      ensures old(FullUnlisted()) ==> FullUnlisted()
    {
      p := CreateNewPage();
      forall q | q in free && Full(q) && old(FullUnlisted()) ensures exists rid :: rid in closing && rid.pageNo == q {
        assert old(Full(q));
      }
    }

    /** Sets a clear bit and counts it. */
    method SetBit(rid: Rid)
      requires Layout() && Slots() && IsSlot(rid) && !Stored(pages, rid)
      modifies this`pages
      ensures Layout() && Slots() && pages == Marked(old(pages), rid)
      ensures forall r :: Stored(pages, r) <==> Stored(old(pages), r) || r == rid
      ensures old(FullUnlisted()) ==> ListedOk(rid.pageNo)
      ensures Full(rid.pageNo) <==> forall s :: 0 <= s < cap ==> s in pages[rid.pageNo].used
    {
      var page := pages[rid.pageNo];
      assert PageOk(rid.pageNo);
      var pages' := Marked(pages, rid);
      SameLinksKeepList(pages, pages', first, free);
      pages := pages';
      forall q | q in pages ensures PageOk(q) {
        if q != rid.pageNo { assert old(PageOk(q)); }
      }
      FullIffAllSet(pages[rid.pageNo].used, cap);
      forall q | q in free && q != rid.pageNo && Full(q) && old(FullUnlisted())
        ensures exists r :: r in closing && r.pageNo == q
      {
        assert old(Full(q));
      }
    }

    // -------------------------------------------------------------- unreserved inserts

    /** Stores a record; a page left without an available slot leaves the free list. */
    method FillSlot(rid: Rid)
      requires Layout() && Slots() && FullUnlisted() && IsSlot(rid) && !Stored(pages, rid)
      modifies this`pages, this`first, this`free
      ensures Layout() && Slots() && FullUnlisted() && pages.Keys == old(pages).Keys
      ensures forall r :: Stored(pages, r) <==> Stored(old(pages), r) || r == rid
    {
      SetBit(rid);
      ghost var set' := pages;
      var left := FirstAvailableSlot(rid.pageNo);
      if left == cap {
        Unlink(rid.pageNo);
        SameStored(set', pages);
      } else {
        assert !Full(rid.pageNo) by { assert Available(rid.pageNo, left); }
        ListedAll(rid.pageNo);
      }
    }

    lemma ListedAll(p: int)
      requires ListedOk(p) && !Full(p)
      ensures FullUnlisted()
    {
    }

    /** `insert_record` without a position. */
    method InsertRecord() returns (rid: Rid)
      requires Valid()
      modifies this`pages, this`first, this`numPages, this`free
      ensures Valid() && !Stored(old(pages), rid) && rid !in reserved && rid !in quarantined
      ensures forall r :: Stored(pages, r) <==> Stored(old(pages), r) || r == rid
      ensures old(pages.Keys) <= pages.Keys
    {
      var p := CreatePageHandle();
      GrownStored(old(pages), pages);
      ghost var s :| Available(p, s);
      var slot := FirstAvailableSlot(p);
      assert Available(p, s);
      rid := IxModel.Rid(p, slot);
      FillSlot(rid);
    }

    method ExtendTo(pageNo: int)
      requires Valid() && FIRST_PAGE <= pageNo
      modifies this`pages, this`first, this`numPages, this`free
      ensures Valid() && numPages == (if pageNo < old(numPages) then old(numPages) else pageNo + 1)
      ensures Grown(old(pages), pages)
    {
      while pageNo >= numPages
        invariant Valid() && numPages >= old(numPages) && (numPages > old(numPages) ==> numPages <= pageNo + 1)
        invariant Grown(old(pages), pages)
        decreases pageNo - numPages
      {
        var p := NewPage();
      }
    }

    /** `insert_record` at a given position: undo of a delete, and redo. */
    method InsertAt(rid: Rid) returns (r: Outcome)
      requires Valid() && FIRST_PAGE <= rid.pageNo && 0 <= rid.slotNo < cap
      modifies this`pages, this`first, this`numPages, this`free, this`quarantined
      ensures Valid() && numPages == (if rid.pageNo < old(numPages) then old(numPages) else rid.pageNo + 1)
      ensures r == (if Stored(old(pages), rid) then SlotOccupied else Done)
      ensures forall q :: Stored(pages, q) <==> Stored(old(pages), q) || q == rid
      ensures quarantined == if r == Done then old(quarantined) - {rid} else old(quarantined)
    {
      ExtendTo(rid.pageNo);
      GrownStored(old(pages), pages);
      if rid.slotNo in pages[rid.pageNo].used {
        return SlotOccupied;
      }
      quarantined := quarantined - {rid};
      FillSlot(rid);
      r := Done;
    }

    // -------------------------------------------------------------- deletes

    method ClearBit(rid: Rid)
      requires Layout() && Slots() && Stored(pages, rid)
      modifies this`pages
      ensures Layout() && Slots() && pages == Cleared(old(pages), rid) && !Full(rid.pageNo)
      ensures forall r :: Stored(pages, r) <==> Stored(old(pages), r) && r != rid
      ensures old(FullUnlisted()) ==> FullUnlisted()
    {
      var page := pages[rid.pageNo];
      assert PageOk(rid.pageNo);
      FullIffAllSet(page.used, cap);
      var pages' := Cleared(pages, rid);
      SameLinksKeepList(pages, pages', first, free);
      pages := pages';
      forall q | q in pages ensures PageOk(q) {
        if q != rid.pageNo { assert old(PageOk(q)); }
      }
      forall q | q in free && Full(q) && old(FullUnlisted()) ensures exists r :: r in closing && r.pageNo == q {
        assert old(Full(q));
      }
    }

    /** A full page goes back on the free list. That keeps the list sound because no insert into
        the page is between publication and completion. */
    method DeleteRecord(rid: Rid) returns (r: Outcome)
      requires Valid() && forall c :: c in closing ==> c.pageNo != rid.pageNo
      modifies this`pages, this`first, this`free
      ensures Valid() && numPages == old(numPages) && pages.Keys == old(pages).Keys
      ensures r == (if rid.pageNo !in old(pages) then PageNotExist else if Stored(old(pages), rid) then Done
                else RecordNotFound)
      ensures forall q :: Stored(pages, q) <==> Stored(old(pages), q) && q != rid
      ensures free == if r == Done && old(Full(rid.pageNo)) then [rid.pageNo] + old(free) else old(free)
      ensures r == Done ==> (pages, first) == Deleted(old(pages), old(first), cap, rid)
    {
      if rid.pageNo !in pages {
        return PageNotExist;
      }
      if rid.slotNo !in pages[rid.pageNo].used {
        return RecordNotFound;
      }
      var wasFull := pages[rid.pageNo].count == cap;
      assert wasFull ==> Full(rid.pageNo);
      ClearBit(rid);
      r := Done;
      if wasFull {
        Release(rid.pageNo);
      }
    }

    method Release(p: int)
      requires Layout() && Slots() && FullUnlisted() && p in pages && !Full(p) && p !in free
      modifies this`pages, this`first, this`free
      ensures Layout() && Slots() && FullUnlisted() && pages == SetNext(old(pages), p, old(first)) && first == p
              && free == [p] + old(free)
    {
      PushKeepsList(pages, first, free, p);
      pages := SetNext(pages, p, first);
      free := [p] + free;
      first := p;
      forall q | q in pages ensures PageOk(q) { assert old(PageOk(q)); }
      forall q | q in free && Full(q) ensures exists r :: r in closing && r.pageNo == q {
        assert old(Full(q));
      }
    }

    /** Undo of an insert: the slot stays unusable and the list is left alone. */
    method DeleteRecordQuarantine(rid: Rid)
      requires Valid()
      modifies this`pages, this`quarantined
      ensures Valid()
      ensures forall q :: Stored(pages, q) <==> Stored(old(pages), q) && q != rid
      ensures quarantined == if Stored(old(pages), rid) then old(quarantined) + {rid} else old(quarantined)
    {
      if rid.pageNo < 0 || rid.pageNo >= numPages || rid.pageNo !in pages {
        return;
      }
      if rid.slotNo in pages[rid.pageNo].used {
        assert PageOk(rid.pageNo);
        ClearBit(rid);
        quarantined := quarantined + {rid};
      }
    }

    // -------------------------------------------------------------- active insert pages

    method AddActive(p: int)
      requires Slots() && p in pages
      modifies this`active
      ensures Slots() && active == if p in old(active) then old(active) else old(active) + [p]
    {
      if p !in active {
        active := active + [p];
      }
    }

    method RemoveActive(p: int)
      requires Slots()
      modifies this`active, this`cursor
      ensures Slots() && active == Without(old(active), p) && p !in active
      ensures cursor == if active == [] then 0 else old(cursor) % |active|
    {
      var kept: seq<int> := [];
      var i := 0;
      while i < |active|
        invariant 0 <= i <= |active| && active == old(active)
        invariant kept == Without(active[..i], p)
      {
        assert active[..i + 1] == active[..i] + [active[i]];
        assert active[..i + 1][..i] == active[..i];
        if active[i] != p {
          kept := kept + [active[i]];
        }
        i := i + 1;
      }
      assert active[..i] == active;
      WithoutIs(active, p);
      forall j | 0 <= j < |kept| ensures kept[j] in pages { assert Without(active, p)[j] in active; }
      active := kept;
      cursor := if active == [] then 0 else cursor % |active|;
    }

    /** Tops the active pages up from the free list, then with new pages. */
    method EnsureActive(desired: nat)
      requires Layout() && Slots() && FullUnlisted() && 0 < desired <= MAX_ACTIVE
      modifies this`pages, this`first, this`numPages, this`free, this`active
      ensures Layout() && Slots() && FullUnlisted() && Grown(old(pages), pages)
      ensures |active| == if |old(active)| < desired then desired else |old(active)|
      ensures old(active) <= active && forall i :: |old(active)| <= i < |active| ==> HasRoom(active[i])
      ensures old(ActiveListed()) ==> ActiveListed()
      ensures |old(active)| >= desired ==> Steady()
    {
      var p := first;
      var visited := {};
      ghost var i := 0;
      while p != NO_PAGE && |active| < desired && p !in visited
        invariant Layout() && Slots() && FullUnlisted() && pages == old(pages) && free == old(free)
        invariant 0 <= i <= |free| && p == (if i < |free| then free[i] else NO_PAGE)
        invariant |old(active)| <= |active| && (|active| <= desired || |active| == |old(active)|)
        invariant old(active) <= active && forall i :: |old(active)| <= i < |active| ==> HasRoom(active[i])
        invariant (old(ActiveListed()) ==> ActiveListed()) && (|old(active)| >= desired ==> active == old(active))
        decreases |free| - i
      {
        assert LinkAt(pages, free, i);
        visited := visited + {p};
        var slot := FirstAvailableSlot(p);
        if slot < cap {
          AddActive(p);
        }
        p, i := pages[p].next, i + 1;
      }
      AddNewActive(desired);
    }

    method AddNewActive(desired: nat)
      requires Layout() && Slots() && FullUnlisted()
      modifies this`pages, this`first, this`numPages, this`free, this`active
      ensures Layout() && Slots() && FullUnlisted() && Grown(old(pages), pages)
      ensures |active| == if |old(active)| < desired then desired else |old(active)|
      ensures old(active) <= active && forall i ::
                0 <= i < |active| && (i < |old(active)| ==> old(HasRoom(active[i]))) ==> HasRoom(active[i])
      ensures old(ActiveListed()) ==> ActiveListed()
      ensures |old(active)| >= desired ==> Steady()
    {
      while |active| < desired
        invariant Layout() && Slots() && FullUnlisted() && Grown(old(pages), pages)
        invariant |old(active)| <= |active| && (|active| <= desired || |active| == |old(active)|)
        invariant old(active) <= active && forall i ::
                    0 <= i < |active| && (i < |old(active)| ==> old(HasRoom(active[i]))) ==> HasRoom(active[i])
        invariant (old(ActiveListed()) ==> ActiveListed()) && (|old(active)| >= desired ==> Steady())
        decreases desired - |active|
      {
        ghost var before := pages;
        label Before:
        var n := NewPage();
        forall p | p in before && old@Before(HasRoom(p)) ensures HasRoom(p) {
          ghost var s :| old@Before(Available(p, s));
          assert Available(p, s);
        }
        assert Available(n, 0);
        assert n !in active by { forall j | 0 <= j < |active| ensures active[j] != n { assert active[j] in before; } }
        AddActive(n);
      }
    }

    /** Looks for an available slot on the active pages, starting at the cursor and going round once. */
    method FindActive() returns (index: nat, slot: nat)
      requires Slots()
      ensures index <= |active| && (index < |active| ==> Available(active[index], slot))
      ensures index == |active| ==> forall j, s :: 0 <= j < |active| ==> !Available(active[j], s)
    {
      var n := |active|;
      var attempt := 0;
      while attempt < n
        invariant 0 <= attempt <= n
        invariant forall a, s :: 0 <= a < attempt ==> !Available(active[Wrap(cursor, a, n)], s)
      {
        index := Wrap(cursor, attempt, n);
        slot := FirstAvailableSlot(active[index]);
        if slot < cap {
          return;
        }
        attempt := attempt + 1;
      }
      forall j, s | 0 <= j < n ensures !Available(active[j], s) {
        WrapCovers(cursor, n, j);
      }
      index, slot := n, 0;
    }

    // -------------------------------------------------------------- reservations

    /** Chooses an active page with an available slot; a new page is added when there is none, and
        then the second search succeeds. */
    method PickSlot() returns (index: nat, slot: nat)
      requires Layout() && Slots() && FullUnlisted()
      modifies this`pages, this`first, this`numPages, this`free, this`active
      ensures Layout() && Slots() && FullUnlisted() && Grown(old(pages), pages)
      ensures index < |active| && Available(active[index], slot) && |active| >= MAX_ACTIVE
      ensures old(ActiveListed()) ==> ActiveListed()
      ensures old(RoomThere()) ==> Steady()
    {
      EnsureActive(MAX_ACTIVE);
      index, slot := FindOrGrow();
    }

    method FindOrGrow() returns (index: nat, slot: nat)
      requires Layout() && Slots() && FullUnlisted() && |active| > 0
      modifies this`pages, this`first, this`numPages, this`free, this`active
      ensures Layout() && Slots() && FullUnlisted() && Grown(old(pages), pages)
      ensures index < |active| && Available(active[index], slot) && |active| >= |old(active)|
      ensures old(ActiveListed()) ==> ActiveListed()
      ensures (exists i :: 0 <= i < |old(active)| && old(HasRoom(active[i]))) ==> Steady()
    {
      index, slot := FindActive();
      ghost var room := exists i :: 0 <= i < |active| && HasRoom(active[i]);
      ghost var created := false;
      while index == |active|
        invariant Layout() && Slots() && FullUnlisted() && Grown(old(pages), pages)
        invariant 0 <= index <= |active| && (index < |active| ==> Available(active[index], slot))
                  && |active| >= |old(active)|
        invariant created ==> index < |active|
        invariant (old(ActiveListed()) ==> ActiveListed()) && (created || Steady())
                  && (room ==> !created && index < |active|)
        decreases if created then 0 else 1
      {
        index, slot := GrowOne();
        created := true;
      }
    }

    /** A new page among the active ones, and a slot on one of them. */
    method GrowOne() returns (index: nat, slot: nat)
      requires Layout() && Slots() && FullUnlisted()
      modifies this`pages, this`first, this`numPages, this`free, this`active
      ensures Layout() && Slots() && FullUnlisted() && Grown(old(pages), pages) && |active| >= |old(active)|
      ensures index < |active| && Available(active[index], slot) && (old(ActiveListed()) ==> ActiveListed())
    {
      var n := NewPage();
      AddActive(n);
      ghost var k :| 0 <= k < |active| && active[k] == n;
      index, slot := FindActive();
      assert Available(active[k], 0);
    }

    /** Hands out a slot that holds no record and that no other live reservation names. */
    method ReserveInsertSlot() returns (t: InsertSlotReservation)
      requires Valid()
      modifies this
      ensures Valid() && fresh(t) && tokens == old(tokens) + {t} && Live(t) && t.rid !in closing
      ensures t.rid !in old(reserved) && !Stored(old(pages), t.rid) && t.rid !in quarantined
      ensures reserved == old(reserved) + {t.rid} && reservedCount == old(reservedCount) + 1
      ensures quarantined == old(quarantined) && closing == old(closing) && Grown(old(pages), pages)
      ensures exists i :: 0 <= i < |active| && active[i] == t.rid.pageNo && cursor == After(i, |active|)
      ensures |active| >= MAX_ACTIVE && (old(ActiveListed()) ==> ActiveListed()) && (old(RoomThere()) ==> Steady())
    {
      var rid := ChooseSlot();
      t := Hold(rid);
    }

    /** An available slot of an active page; the cursor moves on to the next page. */
    method ChooseSlot() returns (rid: Rid)
      requires Valid()
      modifies this`pages, this`first, this`numPages, this`free, this`active, this`cursor
      ensures Valid() && Available(rid.pageNo, rid.slotNo) && Grown(old(pages), pages) && !Stored(old(pages), rid)
      ensures exists i :: 0 <= i < |active| && active[i] == rid.pageNo && cursor == After(i, |active|)
      ensures |active| >= MAX_ACTIVE && (old(ActiveListed()) ==> ActiveListed()) && (old(RoomThere()) ==> Steady())
    {
      var index, slot := PickSlot();
      GrownStored(old(pages), pages);
      rid := IxModel.Rid(active[index], slot);
      cursor := After(index, |active|);
    }

    method Hold(rid: Rid) returns (t: InsertSlotReservation)
      requires Valid() && Available(rid.pageNo, rid.slotNo)
      modifies this`reserved, this`reservedCount, this`tokens, this`holder
      ensures Valid() && fresh(t) && t.rid == rid && tokens == old(tokens) + {t} && Live(t)
      ensures reserved == old(reserved) + {rid} && reservedCount == old(reservedCount) + 1
    {
      t := new InsertSlotReservation(this, rid);
      Record(t);
    }

    /** Notes a new reservation as the holder of its slot. */
    method Record(t: InsertSlotReservation)
      requires Reservations() && t !in tokens && Live(t) && t.rid !in reserved
      modifies this`reserved, this`reservedCount, this`tokens, this`holder
      ensures Reservations() && tokens == old(tokens) + {t}
      ensures reserved == old(reserved) + {t.rid} && reservedCount == old(reservedCount) + 1
    {
      reserved, reservedCount := reserved + {t.rid}, reservedCount + 1;
      tokens, holder := tokens + {t}, holder[t.rid := t];
      forall q | q in holder ensures HeldOk(q) {
        if q != t.rid { assert old(HeldOk(q)); }
      }
      forall u | u in tokens ensures TokenOk(u) {
        if u != t { assert old(TokenOk(u)); }
      }
    }

    method EndReservation(t: InsertSlotReservation)
      requires Layout() && Slots() && Reservations() && t in tokens && Live(t)
      modifies this`reserved, this`reservedCount, this`holder, this`closing, t
      ensures Slots() && Reservations() && t.rid == old(t.rid) && !Live(t)
      ensures reserved == old(reserved) - {t.rid} && closing == old(closing) - {t.rid}
      ensures old(FullUnlisted()) ==> ListedOk(t.rid.pageNo)
      ensures old(FullUnlisted()) && t.rid !in old(closing) ==> FullUnlisted()
    {
      assert TokenOk(t);
      reserved, reservedCount, holder := reserved - {t.rid}, reservedCount - 1, holder - {t.rid};
      closing := closing - {t.rid};
      t.active, t.owner := false, null;
      forall q | q in holder ensures HeldOk(q) { assert old(HeldOk(q)) && holder[q] != t; }
      forall u | u in tokens ensures TokenOk(u) {
        if u != t { assert old(TokenOk(u)); }
      }
      forall p | p in free && p != t.rid.pageNo && Full(p) && old(FullUnlisted())
        ensures exists rid :: rid in closing && rid.pageNo == p
      {
        assert old(Full(p));
      }
    }

    /** What the destructor of a reservation that was not published does. */
    method CancelInsertReservation(t: InsertSlotReservation)
      requires Valid() && (t.owner == this ==> t in tokens) && (Live(t) ==> t.rid !in closing)
      modifies this`reserved, this`reservedCount, this`active, this`holder, this`closing, t
      ensures Valid() && t.rid == old(t.rid) && !Live(t)
      ensures reserved == (if old(Live(t)) then old(reserved) - {t.rid} else old(reserved))
      ensures |reserved| == reservedCount && closing == old(closing)
    {
      if t.owner != this || !t.active {
        return;
      }
      assert TokenOk(t);
      EndReservation(t);
      AddActive(t.rid.pageNo);
    }

    /** First half of the insert into a reserved slot: it runs under the page latch alone. */
    method Publish(t: InsertSlotReservation) returns (r: Outcome, becameFull: bool)
      requires Valid() && (t.owner == this ==> t in tokens)
      modifies this`pages, this`closing
      ensures Valid() && SameLists()
      ensures r == (if !Live(t) then BadReservation else if Stored(old(pages), t.rid) then SlotOccupied else Done)
      ensures r == Done ==> t.rid.pageNo in old(pages) && pages == Marked(old(pages), t.rid)
      ensures r == Done ==> forall q :: Stored(pages, q) <==> Stored(old(pages), q) || q == t.rid
      ensures r == Done ==>
                becameFull == Full(t.rid.pageNo)
                && closing == if becameFull then old(closing) + {t.rid} else old(closing)
      ensures r != Done ==> pages == old(pages) && closing == old(closing) && !becameFull
    {
      becameFull := false;
      if !(t.owner == this && t.active) {
        return BadReservation, false;
      }
      assert TokenOk(t);
      if t.rid.slotNo in pages[t.rid.pageNo].used {
        return SlotOccupied, false;
      }
      SetBit(t.rid);
      becameFull := pages[t.rid.pageNo].count == cap;
      if becameFull {
        closing := closing + {t.rid};
      }
      r := Done;
    }

    twostate predicate SameLists()
      reads this
    {
      reserved == old(reserved) && free == old(free) && pages.Keys == old(pages.Keys)
    }

    method Retire(p: int)
      requires Layout() && Slots() && ListedOk(p) && p in pages
      modifies this`pages, this`first, this`free, this`active, this`cursor
      ensures Layout() && Slots() && FullUnlisted() && SameRecords(old(pages), pages) && p !in free && p !in active
    {
      Unlink(p);
      RemoveActive(p);
    }

    /** Second half, under the heap mutex: the reservation ends, and the page that the publication
        filled leaves the free list and the active pages. */
    method CompleteInsertReservation(t: InsertSlotReservation, becameFull: bool) returns (r: Outcome)
      requires Valid() && (t.owner == this ==> t in tokens)
      requires Live(t) ==> becameFull == (t.rid in closing)
      modifies this`pages, this`first, this`free, this`reserved, this`reservedCount, this`active, this`cursor,
                 this`holder, this`closing, t
      ensures Valid() && t.rid == old(t.rid) && !Live(t) && SameRecords(old(pages), pages)
      ensures r == if old(Live(t)) then Done else BadReservation
      ensures reserved == (if r == Done then old(reserved) - {t.rid} else old(reserved))
      ensures closing == (if r == Done then old(closing) - {t.rid} else old(closing))
      ensures !becameFull ==> Steady()
    {
      if !(t.owner == this && t.active) {
        return BadReservation;
      }
      assert TokenOk(t);
      EndReservation(t);
      if becameFull {
        Retire(t.rid.pageNo);
      }
      r := Done;
    }

    /** `insert_record` into a reserved slot, its two halves in a row. */
    method InsertReserved(t: InsertSlotReservation) returns (r: Outcome)
      requires Valid() && (t.owner == this ==> t in tokens) && (Live(t) ==> t.rid !in closing)
      modifies this, t
      ensures Valid() && t.rid == old(t.rid) && closing == old(closing)
      ensures r == (if !old(Live(t)) then BadReservation else if Stored(old(pages), t.rid) then SlotOccupied else Done)
      ensures r == Done ==> !Live(t) && reserved == old(reserved) - {t.rid}
      ensures forall q :: Stored(pages, q) <==> Stored(old(pages), q) || (q == t.rid && r == Done)
    {
      var becameFull;
      r, becameFull := Publish(t);
      if r != Done {
        return;
      }
      ghost var published := pages;
      r := CompleteInsertReservation(t, becameFull);
      SameStored(published, pages);
    }

    // -------------------------------------------------------------- bulk load and lookahead

    /** Next slot after `current` that is neither set nor quarantined. */
    method FindNextSlot(p: int, current: nat) returns (slot: nat)
      requires p in pages && current < cap
      ensures current < slot <= cap && (slot < cap ==> slot !in pages[p].used && IxModel.Rid(p, slot) !in quarantined)
      ensures forall s :: current < s < slot ==> s in pages[p].used || IxModel.Rid(p, s) in quarantined
    {
      slot := current + 1;
      while slot < cap && (slot in pages[p].used || IxModel.Rid(p, slot) in quarantined)
        invariant current < slot <= cap
        invariant forall s :: current < s < slot ==> s in pages[p].used || IxModel.Rid(p, s) in quarantined
      {
        slot := slot + 1;
      }
    }

    /** Stores the next record of a load on page `p` and says where the one after it goes. */
    method BulkStep(p: int, slot: nat) returns (next: nat)
      requires Valid() && reserved == {} && Available(p, slot)
      modifies this`pages, this`first, this`free
      ensures Valid() && pages.Keys == old(pages).Keys && next <= cap
      ensures forall q :: Stored(pages, q) <==> Stored(old(pages), q) || q == IxModel.Rid(p, slot)
      ensures next < cap ==> Available(p, next)
    {
      SetBit(IxModel.Rid(p, slot));
      next := FindNextSlot(p, slot);
      if next >= cap {
        ghost var before := pages;
        Unlink(p);
        SameStored(before, pages);
      } else {
        assert !Full(p);
        ListedAll(p);
      }
    }

    /** LOAD: fills page after page. It looks at no reservation, so there must be none. */
    method BulkInsertRecords(n: nat) returns (rids: seq<Rid>)
      requires Valid() && reserved == {}
      modifies this`pages, this`first, this`numPages, this`free
      ensures Valid() && |rids| == n
      ensures forall i, j :: 0 <= i < j < n ==> rids[i] != rids[j]
      ensures forall i :: 0 <= i < n ==> !Stored(old(pages), rids[i]) && rids[i] !in quarantined
      ensures forall q :: Stored(pages, q) <==> Stored(old(pages), q) || q in rids
    {
      rids := [];
      var p, slot := NO_PAGE, 0;
      while |rids| < n
        invariant Valid() && |rids| <= n && reserved == {}
        invariant p != NO_PAGE ==> Available(p, slot) && slot >= 0
        invariant forall i, j :: 0 <= i < j < |rids| ==> rids[i] != rids[j]
        invariant forall i :: 0 <= i < |rids| ==> !Stored(old(pages), rids[i]) && rids[i] !in quarantined
        invariant forall q :: Stored(pages, q) <==> Stored(old(pages), q) || q in rids
      {
        if p == NO_PAGE {
          p, slot := PinFreePage();
        }
        ghost var before := rids;
        assert !Stored(pages, IxModel.Rid(p, slot));
        rids := rids + [IxModel.Rid(p, slot)];
        slot := BulkStep(p, slot);
        if slot >= cap {
          p := NO_PAGE;
        }
      }
    }

    method PinFreePage() returns (p: int, slot: nat)
      requires Valid()
      modifies this`pages, this`first, this`numPages, this`free
      ensures Valid() && p != NO_PAGE && Available(p, slot)
      ensures forall q :: Stored(pages, q) <==> Stored(old(pages), q)
    {
      p := CreatePageHandle();
      GrownStored(old(pages), pages);
      ghost var s :| Available(p, s);
      slot := FirstAvailableSlot(p);
      assert Available(p, s);
    }

    /** `rid` is the least available slot of the `j`-th listed page, and no page before it has room. */
    ghost predicate FirstRoom(j: int, rid: Rid)
      requires 0 <= j < |free|
      reads this`pages, this`reserved, this`quarantined, this`free
    {
      && rid.pageNo == free[j] && Available(free[j], rid.slotNo) && (forall i :: 0 <= i < j ==> !HasRoom(free[i]))
      && forall s :: 0 <= s < rid.slotNo ==> !Available(free[j], s)
    }

    /** Where `insert_record` would put a record: the first available slot along the free list, or
        slot 0 of the page that would be created. */
    method PrepareInsertRid() returns (rid: Rid)
      requires Valid()
      ensures (exists j :: 0 <= j < |free| && FirstRoom(j, rid))
              || (rid == IxModel.Rid(numPages, 0) && forall j :: 0 <= j < |free| ==> !HasRoom(free[j]))
    {
      var p := first;
      ghost var i := 0;
      while p != NO_PAGE
        invariant 0 <= i <= |free| && p == (if i < |free| then free[i] else NO_PAGE)
        invariant forall j :: 0 <= j < i ==> !HasRoom(free[j])
        decreases |free| - i
      {
        assert LinkAt(pages, free, i);
        var slot := FirstAvailableSlot(p);
        if slot < cap {
          assert FirstRoom(i, IxModel.Rid(p, slot));
          return IxModel.Rid(p, slot);
        }
        p, i := pages[p].next, i + 1;
      }
      rid := IxModel.Rid(numPages, 0);
    }

    /** Between operations, with no insert half done: counters count the bits, the free list visits
        no page twice, and every page on it has a clear bit. */
    lemma ListedPagesHaveRoom()
      requires Valid() && closing == {}
      ensures ListIs(pages, first, free)
      ensures forall p :: p in pages ==> pages[p].count == |pages[p].used|
      ensures forall p :: p in free ==> p in pages && exists s :: 0 <= s < cap && s !in pages[p].used
    {
      forall p | p in pages ensures pages[p].count == |pages[p].used| { assert PageOk(p); }
      forall p | p in free ensures p in pages && exists s :: 0 <= s < cap && s !in pages[p].used {
        var i :| 0 <= i < |free| && free[i] == p;
        assert LinkAt(pages, free, i) && PageOk(p) && !Full(p);
        FullIffAllSet(pages[p].used, cap);
      }
    }
  }

  /** `s` with every `x` taken out, the rest in order. */
  function Without(s: seq<int>, x: int): seq<int>
    decreases |s|
  {
    if s == [] then []
    else if s[|s| - 1] == x then Without(s[..|s| - 1], x)
    else Without(s[..|s| - 1], x) + [s[|s| - 1]]
  }

  lemma {:induction false} WithoutIs(s: seq<int>, x: int)
    ensures forall y :: y in Without(s, x) <==> y in s && y != x
    ensures forall j :: 0 <= j < |Without(s, x)| ==> Without(s, x)[j] in s
    ensures NoRepeats(s) ==> NoRepeats(Without(s, x))
    decreases |s|
  {
    if s != [] {
      var front, last := s[..|s| - 1], s[|s| - 1];
      WithoutIs(front, x);
      assert s == front + [last];
      if NoRepeats(s) {
        assert last !in front;
        forall j | 0 <= j < |Without(front, x)| ensures Without(front, x)[j] != last {
          assert Without(front, x)[j] in Without(front, x);
        }
      }
    }
  }

  /** The next position, going round. */
  function After(i: nat, n: nat): nat
    requires n > 0
  {
    (i + 1) % n
  }

  /** Clear slots on the given pages. */
  ghost function ClearSlots(pages: Pages, at: seq<int>, cap: nat): int
    requires forall i :: 0 <= i < |at| ==> at[i] in pages
    decreases |at|
  {
    if at == [] then 0 else ClearSlots(pages, at[..|at| - 1], cap) + cap - pages[at[|at| - 1]].count
  }

  lemma {:induction false} ClearSlotsMarked(pages: Pages, at: seq<int>, cap: nat, rid: Rid)
    requires (forall i :: 0 <= i < |at| ==> at[i] in pages && pages[at[i]].count <= cap) && rid.pageNo in pages
             && NoRepeats(at)
    ensures ClearSlots(pages, at, cap) >= 0
    ensures ClearSlots(Marked(pages, rid), at, cap) == ClearSlots(pages, at, cap) - (if rid.pageNo in at then 1 else 0)
    decreases |at|
  {
    if at != [] {
      var front, last := at[..|at| - 1], at[|at| - 1];
      assert at == front + [last];
      assert last !in front;
      ClearSlotsMarked(pages, front, cap, rid);
    }
  }

  /** A page with a clear bit, nothing reserved or quarantined, has an available slot. */
  lemma ClearIsRoom(h: RmFileHandle, p: int)
    requires h.Valid() && p in h.pages && h.pages[p].count < h.cap && h.reserved == {} && h.quarantined == {}
    ensures h.HasRoom(p)
  {
    assert h.PageOk(p);
    FullIffAllSet(h.pages[p].used, h.cap);
    var s :| 0 <= s < h.cap && s !in h.pages[p].used;
    assert h.Available(p, s);
  }

  /** A file of any capacity, filled through reservations until one of its pages has a single clear
      slot: publishing the reservation of that slot leaves the page full and still listed, and a
      delete that comes before the completion ties the free list into a cycle. */
  method DeleteBetweenPublishAndComplete(cap: nat) returns (h: RmFileHandle, t: InsertSlotReservation)
    requires cap > 0
    ensures fresh(h) && h.Valid() && h.cap == cap && h.Live(t) && t.rid in h.closing && Stored(h.pages, t.rid)
    ensures h.Full(t.rid.pageNo) && t.rid.pageNo in h.free && h.numPages > MAX_ACTIVE
    ensures !exists walk ::
              ListIs(Deleted(h.pages, h.first, cap, t.rid).0, Deleted(h.pages, h.first, cap, t.rid).1, walk)
  {
    h := new RmFileHandle(cap);
    t := FillUp(h);
    PublishLast(h, t);
    DeleteIsSafeIff(h.pages, h.first, h.free, cap, t.rid);
  }

  /** Reserves and completes until the page of the last reservation has one clear slot. */
  method FillUp(h: RmFileHandle) returns (t: InsertSlotReservation)
    requires h.Valid() && h.pages == map[] && h.active == [] && h.reserved == h.quarantined == h.closing == {}
             && h.tokens == {}
    modifies h
    ensures fresh(t) && FillingUp(h, t) && h.pages[t.rid.pageNo].count + 1 >= h.cap
  {
    t := FirstReservation(h);
    while h.pages[t.rid.pageNo].count + 1 < h.cap
      invariant fresh(t) && FillingUp(h, t)
      decreases ClearSlots(h.pages, h.active, h.cap)
    {
      t := FillOne(h, t);
    }
  }

  method FirstReservation(h: RmFileHandle) returns (t: InsertSlotReservation)
    requires h.Valid() && h.pages == map[] && h.active == [] && h.reserved == h.quarantined == h.closing == {}
             && h.tokens == {}
    modifies h
    ensures fresh(t) && FillingUp(h, t)
  {
    t := h.ReserveInsertSlot();
    forall i | 0 <= i < |h.active| ensures h.pages[h.active[i]].count < h.cap { assert h.PageOk(h.active[i]); }
  }

  /** Publishes the reservation of the last clear slot of a page. */
  method PublishLast(h: RmFileHandle, t: InsertSlotReservation)
    requires FillingUp(h, t) && h.pages[t.rid.pageNo].count + 1 >= h.cap
    modifies h
    ensures h.Valid() && h.Live(t) && t.rid in h.closing && Stored(h.pages, t.rid)
    ensures h.Full(t.rid.pageNo) && t.rid.pageNo in h.free && h.numPages > MAX_ACTIVE
  {
    ManyPages(h.active, h.numPages);
    assert h.PageOk(t.rid.pageNo);
    var r, becameFull := h.Publish(t);
  }

  /** Different pages need different numbers. */
  lemma ManyPages(at: seq<int>, n: int)
    requires NoRepeats(at) && forall i :: 0 <= i < |at| ==> FIRST_PAGE <= at[i] < n
    ensures |at| == 0 || |at| < n
  {
    if |at| > 0 {
      var s := Members(at);
      assert at[0] < n;
      SubsetSize(s, Upto(n) - {0});
    }
  }

  lemma {:induction false} Members(at: seq<int>) returns (s: set<int>)
    requires NoRepeats(at)
    ensures |s| == |at| && forall x :: x in s <==> x in at
    decreases |at|
  {
    s := {};
    if at != [] {
      var front, last := at[..|at| - 1], at[|at| - 1];
      assert NoRepeats(front);
      var rest := Members(front);
      assert last !in rest by { assert last !in front; }
      s := rest + {last};
      assert at == front + [last];
    }
  }

  /** One live reservation, its page active and listed, and no full page among the active ones. */
  ghost predicate FillingUp(h: RmFileHandle, t: InsertSlotReservation)
    reads h, h.tokens, t
  {
    && h.Valid() && h.Live(t) && t in h.tokens && h.reserved == {t.rid} && h.closing == {} && h.quarantined == {}
    && !Stored(h.pages, t.rid) && t.rid.pageNo in h.active && h.ActiveListed() && |h.active| >= MAX_ACTIVE
    && forall i :: 0 <= i < |h.active| ==> h.pages[h.active[i]].count < h.cap
  }

  /** No reservation, and every active page is listed and has a clear slot. */
  ghost predicate Resting(h: RmFileHandle)
    reads h, h.tokens
  {
    && h.Valid() && h.reserved == {} && h.closing == {} && h.quarantined == {} && h.ActiveListed()
        && |h.active| >= MAX_ACTIVE
    && forall i :: 0 <= i < |h.active| ==> h.pages[h.active[i]].count < h.cap
  }

  /** Stores a record in the reserved slot and reserves the next one. */
  method FillOne(h: RmFileHandle, t: InsertSlotReservation) returns (next: InsertSlotReservation)
    requires FillingUp(h, t) && h.pages[t.rid.pageNo].count + 1 < h.cap
    modifies h, t
    ensures fresh(next) && FillingUp(h, next)
    ensures 0 <= ClearSlots(h.pages, h.active, h.cap) < old(ClearSlots(h.pages, h.active, h.cap))
  {
    StoreOne(h, t);
    next := ReserveAgain(h);
  }

  method StoreOne(h: RmFileHandle, t: InsertSlotReservation)
    requires FillingUp(h, t) && h.pages[t.rid.pageNo].count + 1 < h.cap
    modifies h, t
    ensures Resting(h)
    ensures 0 <= ClearSlots(h.pages, h.active, h.cap) < old(ClearSlots(h.pages, h.active, h.cap))
  {
    ClearSlotsMarked(h.pages, h.active, h.cap, t.rid);
    ClearSlotsMarked(Marked(h.pages, t.rid), h.active, h.cap, t.rid);
    PublishAndComplete(h, t);
  }

  method PublishAndComplete(h: RmFileHandle, t: InsertSlotReservation)
    requires FillingUp(h, t) && h.pages[t.rid.pageNo].count + 1 < h.cap
    modifies h, t
    ensures Resting(h) && h.pages == Marked(old(h.pages), old(t.rid)) && h.active == old(h.active)
  {
    var r, becameFull := h.Publish(t);
    r := h.CompleteInsertReservation(t, becameFull);
  }

  method ReserveAgain(h: RmFileHandle) returns (t: InsertSlotReservation)
    requires Resting(h)
    modifies h
    ensures fresh(t) && FillingUp(h, t) && h.pages == old(h.pages) && h.active == old(h.active)
  {
    ClearIsRoom(h, h.active[0]);
    t := h.ReserveInsertSlot();
  }

  function Wrap(cursor: nat, attempt: nat, n: nat): (k: nat)
    requires attempt < n
    ensures k < n
  {
    (cursor + attempt) % n
  }

  /** Going round once visits every index. */
  lemma WrapCovers(cursor: nat, n: nat, j: nat)
    requires j < n
    ensures exists a :: 0 <= a < n && Wrap(cursor, a, n) == j
  {
    var c := cursor % n;
    var a := if c <= j then j - c else j - c + n;
    var q := cursor / n;
    assert cursor == q * n + c;
    assert cursor + a == (if c <= j then q * n + j else q * n + n + j);
    DivUnique(cursor + a, n, if c <= j then q else q + 1, j);
    assert Wrap(cursor, a, n) == j;
  }

  lemma SameStored(a: Pages, b: Pages)
    requires SameRecords(a, b)
    ensures forall r :: Stored(a, r) <==> Stored(b, r)
  {
  }

  lemma GrownStored(a: Pages, b: Pages)
    requires Grown(a, b)
    ensures forall r :: Stored(a, r) <==> Stored(b, r)
  {
  }

  ghost predicate Grown(a: Pages, b: Pages) {
    && a.Keys <= b.Keys
    && (forall p :: p in a ==> a[p].used == b[p].used && a[p].count == b[p].count)
    && forall p :: p in b && p !in a ==> b[p].used == {}
  }
}
