/** Any interleaving of the heap-file operations of any number of sessions. */
module HeapRuns {
  import opened HeapFile
  import IxModel

  /** `Publish(i)` and the like act on the `i`-th reservation handed out. */
  datatype Op =
    | Reserve
    | Publish(i: nat)
    | Complete(i: nat)
    | Cancel(i: nat)
    | Insert
    | InsertAt(rid: Rid)
    | Delete(rid: Rid)
    | Quarantine(rid: Rid)

  /** How far the session holding a reservation has come; `Published` carries the flag that
      publication hands to completion. */
  datatype Stage = Held | Published(becameFull: bool) | Ended

  /** The sessions' reservations and the heap file agree. */
  ghost predicate InStep(h: RmFileHandle, held: seq<InsertSlotReservation>, stages: seq<Stage>)
    reads h, h.tokens, held
  {
    && h.Valid() && |held| == |stages|
    && (forall i {:trigger TokenAt(h, held, stages, i)} :: 0 <= i < |held| ==> TokenAt(h, held, stages, i))
    && (forall i, j :: 0 <= i < j < |held| ==> held[i] != held[j])
    && (forall c :: c in h.closing ==> exists i :: 0 <= i < |held| && held[i].rid == c && stages[i] == Published(true))
  }

  ghost predicate TokenAt(h: RmFileHandle, held: seq<InsertSlotReservation>, stages: seq<Stage>, i: int)
    requires |held| == |stages| && 0 <= i < |held|
    reads h, held
  {
    && held[i] in h.tokens
    && (stages[i] != Ended <==> h.Live(held[i]))
    && (h.Live(held[i]) ==> (stages[i] == Published(true) <==> held[i].rid in h.closing))
  }

  /** Live reservations are for different slots. */
  lemma LiveReservationsDiffer(h: RmFileHandle, t: InsertSlotReservation, u: InsertSlotReservation)
    requires h.Valid() && t in h.tokens && u in h.tokens && h.Live(t) && h.Live(u) && t.rid == u.rid
    ensures t == u
  {
    assert h.TokenOk(t) && h.TokenOk(u);
  }

  method Reserve1(h: RmFileHandle, held: seq<InsertSlotReservation>, stages: seq<Stage>)
      returns (held': seq<InsertSlotReservation>, stages': seq<Stage>)
    requires InStep(h, held, stages)
    modifies h
    ensures InStep(h, held', stages') && |held'| == |held| + 1 && held' == held + [held'[|held|]]
            && fresh(held'[|held|])
  {
    var t := h.ReserveInsertSlot();
    held', stages' := held + [t], stages + [Held];
    forall i | 0 <= i < |held'| ensures TokenAt(h, held', stages', i) {
      if i < |held| { assert old(TokenAt(h, held, stages, i)); }
    }
    forall c | c in h.closing
      ensures exists i :: 0 <= i < |held'| && held'[i].rid == c && stages'[i] == Published(true)
    {
      var i :| 0 <= i < |held| && old(held[i].rid) == c && stages[i] == Published(true);
      assert held'[i] == held[i];
    }
  }

  method Publish1(h: RmFileHandle, held: seq<InsertSlotReservation>, stages: seq<Stage>, i: nat)
      returns (stages': seq<Stage>)
    requires InStep(h, held, stages) && i < |held| && stages[i] == Held
    modifies h
    ensures InStep(h, held, stages')
  {
    assert TokenAt(h, held, stages, i);
    var r, becameFull := h.Publish(held[i]);
    stages' := if r == Done then stages[i := Published(becameFull)] else stages;
    forall j | 0 <= j < |held| ensures TokenAt(h, held, stages', j) {
      assert old(TokenAt(h, held, stages, j));
      if j != i { Apart(h, held, i, j); }
    }
    forall c | c in h.closing ensures exists j :: 0 <= j < |held| && held[j].rid == c && stages'[j] == Published(true) {
      if c !in old(h.closing) {
        assert held[i].rid == c && stages'[i] == Published(true);
      } else {
        var j :| 0 <= j < |held| && held[j].rid == c && stages[j] == Published(true);
        assert stages'[j] == stages[j];
      }
    }
  }

  /** Two different reservations that are both live are for different slots. */
  lemma Apart(h: RmFileHandle, held: seq<InsertSlotReservation>, i: nat, j: nat)
    requires h.Valid() && i < |held| && j < |held| && held[i] != held[j] && held[i] in h.tokens && held[j] in h.tokens
    ensures h.Live(held[i]) && h.Live(held[j]) ==> held[i].rid != held[j].rid
  {
    if h.Live(held[i]) && h.Live(held[j]) && held[i].rid == held[j].rid {
      LiveReservationsDiffer(h, held[i], held[j]);
    }
  }

  method EndOne(h: RmFileHandle, t: InsertSlotReservation, stage: Stage)
    requires h.Valid() && t in h.tokens && h.Live(t) && stage != Ended
             && (stage == Published(true) <==> t.rid in h.closing)
    modifies h, t
    ensures h.Valid() && h.tokens == old(h.tokens) && t.rid == old(t.rid) && !h.Live(t)
            && h.closing == old(h.closing) - {t.rid}
  {
    if stage.Published? {
      var r := h.CompleteInsertReservation(t, stage.becameFull);
    } else {
      h.CancelInsertReservation(t);
    }
  }

  /** Completion of a published reservation, or cancellation of one that is not. */
  method End1(h: RmFileHandle, held: seq<InsertSlotReservation>, stages: seq<Stage>, i: nat)
      returns (stages': seq<Stage>)
    requires InStep(h, held, stages) && i < |held| && stages[i] != Ended
    modifies h, held[i]
    ensures InStep(h, held, stages')
  {
    assert TokenAt(h, held, stages, i);
    forall j | 0 <= j < |held| && j != i ensures h.Live(held[j]) ==> held[j].rid != held[i].rid {
      assert TokenAt(h, held, stages, j);
      Apart(h, held, i, j);
    }
    EndOne(h, held[i], stages[i]);
    stages' := stages[i := Ended];
    forall j | 0 <= j < |held| ensures TokenAt(h, held, stages', j) {
      assert old(TokenAt(h, held, stages, j));
      assert j != i ==> held[j] != held[i];
    }
    forall c | c in h.closing ensures exists j :: 0 <= j < |held| && held[j].rid == c && stages'[j] == Published(true) {
      var j :| 0 <= j < |held| && old(held[j].rid) == c && stages[j] == Published(true);
      assert j != i && held[j] != held[i];
      assert stages'[j] == stages[j];
    }
  }

  /** A delete, unless the insert that filled the page is not yet completed. */
  method DeleteIfFree(h: RmFileHandle, held: seq<InsertSlotReservation>, stages: seq<Stage>, rid: Rid)
    requires InStep(h, held, stages)
    modifies h
    ensures h.Valid() && h.tokens == old(h.tokens) && h.closing == old(h.closing) && h.reserved == old(h.reserved)
  {
    var busy := Closing(h, held, stages, rid.pageNo);
    if !busy {
      var r := h.DeleteRecord(rid);
    }
  }

  /** The operations that involve no reservation. A delete waits while an insert that filled the
      page has not completed. */
  method Other(h: RmFileHandle, held: seq<InsertSlotReservation>, stages: seq<Stage>, op: Op)
    requires InStep(h, held, stages) && (op.Insert? || op.InsertAt? || op.Delete? || op.Quarantine?)
    modifies h
    ensures InStep(h, held, stages)
  {
    match op {
      case Insert =>
        var rid := h.InsertRecord();
      case InsertAt(rid) =>
        if FIRST_PAGE <= rid.pageNo && 0 <= rid.slotNo < h.cap {
          var r := h.InsertAt(rid);
        }
      case Delete(rid) =>
        DeleteIfFree(h, held, stages, rid);
      case Quarantine(rid) =>
        h.DeleteRecordQuarantine(rid);
    }
    forall i | 0 <= i < |held| ensures TokenAt(h, held, stages, i) { assert old(TokenAt(h, held, stages, i)); }
  }

  method Closing(h: RmFileHandle, held: seq<InsertSlotReservation>, stages: seq<Stage>, p: int) returns (busy: bool)
    requires InStep(h, held, stages)
    ensures busy <==> exists c :: c in h.closing && c.pageNo == p
  {
    var i := 0;
    while i < |held|
      invariant 0 <= i <= |held|
      invariant forall j :: 0 <= j < i ==> !(stages[j] == Published(true) && held[j].rid.pageNo == p)
    {
      if stages[i] == Published(true) && held[i].rid.pageNo == p {
        assert TokenAt(h, held, stages, i);
        return true;
      }
      i := i + 1;
    }
    busy := false;
  }

  /** Every run keeps the heap file sound: no two live reservations name a slot, the reservation
      counter is exact, bit counters are exact, and once no insert is half done the free list visits
      every page at most once and only pages with room. */
  method Run(h: RmFileHandle, ops: seq<Op>) returns (held: seq<InsertSlotReservation>, stages: seq<Stage>)
    requires h.Valid() && h.tokens == {} && h.closing == {}
    modifies h
    ensures InStep(h, held, stages) && h.reservedCount == |h.reserved|
    ensures forall i, j :: 0 <= i < j < |held| && h.Live(held[i]) && h.Live(held[j]) ==> held[i].rid != held[j].rid
    ensures forall p :: p in h.pages ==> h.pages[p].count == |h.pages[p].used|
    ensures (forall i :: 0 <= i < |held| ==> stages[i] != Published(true)) ==>
              ListIs(h.pages, h.first, h.free) && forall p :: p in h.free ==>
                  p in h.pages && exists s :: 0 <= s < h.cap && s !in h.pages[p].used
  {
    held, stages := [], [];
    for t := 0 to |ops|
      invariant InStep(h, held, stages) && forall i :: 0 <= i < |held| ==> fresh(held[i])
    {
      match ops[t] {
        case Reserve =>
          held, stages := Reserve1(h, held, stages);
        case Publish(i) =>
          if i < |held| && stages[i] == Held { stages := Publish1(h, held, stages, i); }
        case Complete(i) =>
          if i < |held| && stages[i].Published? { stages := End1(h, held, stages, i); }
        case Cancel(i) =>
          if i < |held| && stages[i] == Held { stages := End1(h, held, stages, i); }
        case _ =>
          Other(h, held, stages, ops[t]);
      }
    }
    forall i, j | 0 <= i < j < |held| && h.Live(held[i]) && h.Live(held[j]) ensures held[i].rid != held[j].rid {
      assert TokenAt(h, held, stages, i) && TokenAt(h, held, stages, j);
      Apart(h, held, i, j);
    }
    forall p | p in h.pages ensures h.pages[p].count == |h.pages[p].used| { assert h.PageOk(p); }
    if forall i :: 0 <= i < |held| ==> stages[i] != Published(true) {
      assert h.closing == {};
      h.ListedPagesHaveRoom();
    }
  }
}
