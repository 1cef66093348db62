/** Whole runs of the index: any history of probes, ticketed inserts and deletes on a fresh index
    answers exactly as the map does. */
module IxRuns {
  import opened IxModel
  import opened IxIndex

  /** `t` names one of the caller's tickets; a number out of range means no ticket. */
  datatype Op =
    | Probe(key: Key, t: nat)
    | Insert(key: Key, rid: Rid, t: nat, concurrent: bool)
    | Delete(key: Key)
    | Descend(t: nat)

  /** `Routed` says whether a ticket with the current epoch and a fresh descent name the same leaf. */
  datatype Out = Found(rid: Rid) | Missing | Inserted | Duplicate | Deleted | NotThere | Routed(same: bool)

  function Answer(m: map<Key, Rid>, op: Op): Out {
    match op
    case Probe(k, _) => if k in m then Found(m[k]) else Missing
    case Insert(k, _, _, _) => if k in m then Duplicate else Inserted
    case Delete(k) => if k in m then Deleted else NotThere
    case Descend(_) => Routed(true)
  }

  function Effect(m: map<Key, Rid>, op: Op): map<Key, Rid> {
    match op
    case Probe(_, _) => m
    case Insert(k, r, _, _) => if k in m then m else m[k := r]
    case Delete(k) => m - {k}
    case Descend(_) => m
  }

  function Answers(m: map<Key, Rid>, ops: seq<Op>): seq<Out>
    decreases |ops|
  {
    if ops == [] then [] else [Answer(m, ops[0])] + Answers(Effect(m, ops[0]), ops[1..])
  }

  /** The tree refines the map over every run, whichever tickets the inserts present and however
      much later they present them; and at every point of a run a ticket whose epoch is the current
      one names the leaf that a fresh descent ends in. */
  method Replay(order: int, tickets: nat, ops: seq<Op>) returns (outs: seq<Out>)
    requires order > 2
    ensures outs == Answers(map[], ops)
  {
    var ih := new IxIndexHandle(order);
    var ts := NewTickets(ih, tickets);
    outs := RunAll(ih, ts, ops);
  }

  /** The tickets are different and sound. */
  ghost predicate TicketsOk(ih: IxIndexHandle, ts: seq<LeafTicket>)
    reads ih, ts
  {
    && (forall i {:trigger ts[i]} :: 0 <= i < |ts| ==> ih.Sound(ts[i]))
    && (forall i, j {:trigger ts[i], ts[j]} :: 0 <= i < j < |ts| ==> ts[i] != ts[j])
  }

  method NewTickets(ih: IxIndexHandle, n: nat) returns (ts: seq<LeafTicket>)
    ensures TicketsOk(ih, ts) && forall i {:trigger ts[i]} :: 0 <= i < |ts| ==> fresh(ts[i])
  {
    ts := [];
    while |ts| < n
      invariant TicketsOk(ih, ts) && forall i {:trigger ts[i]} :: 0 <= i < |ts| ==> fresh(ts[i])
      decreases n - |ts|
    {
      var t := new LeafTicket();
      ts := ts + [t];
    }
  }

  method RunAll(ih: IxIndexHandle, ts: seq<LeafTicket>, ops: seq<Op>) returns (outs: seq<Out>)
    requires ih.Valid() && TicketsOk(ih, ts)
    modifies ih, ts
    ensures ih.Valid() && TicketsOk(ih, ts) && outs == Answers(old(ih.Contents()), ops)
  {
    outs := [];
    var n := 0;
    while n < |ops|
      invariant 0 <= n <= |ops| && ih.Valid() && TicketsOk(ih, ts)
      invariant outs + Answers(ih.Contents(), ops[n..]) == Answers(old(ih.Contents()), ops)
    {
      assert ops[n..] == [ops[n]] + ops[n + 1..];
      ghost var m := ih.Contents();
      var out := Step(ih, ts, ops[n]);
      assert outs + Answers(m, ops[n..]) == (outs + [out]) + Answers(ih.Contents(), ops[n + 1..]);
      outs := outs + [out];
      n := n + 1;
    }
  }

  /** A ticket can be used with this index now. */
  predicate Usable(ih: IxIndexHandle, t: LeafTicket)
    reads ih, t
  {
    t.valid && t.owner == ih && t.epoch == ih.epoch
  }

  /** With an unchanged epoch the ticket's leaf is the one a fresh descent for its key returns. */
  method FreshDescent(ih: IxIndexHandle, t: LeafTicket) returns (leaf: int)
    requires ih.Valid() && ih.Sound(t) && Usable(ih, t)
    ensures leaf == t.leaf && leaf in ih.pages && ih.pages[leaf].isLeaf
  {
    leaf := ih.FindLeafPage(t.key);
    assert PageOk(ih.View(), ih.g, leaf, {});
  }

  /** One operation of a run: it answers and acts as the map does, leaves every ticket sound, and
      changes no interval, level or page of the tree without raising the epoch. */
  method Step(ih: IxIndexHandle, ts: seq<LeafTicket>, op: Op) returns (out: Out)
    requires ih.Valid() && TicketsOk(ih, ts)
    modifies ih, ts
    ensures ih.Valid() && TicketsOk(ih, ts)
    ensures out == Answer(old(ih.Contents()), op) && ih.Contents() == Effect(old(ih.Contents()), op)
    ensures ih.epoch >= old(ih.epoch) && (ih.epoch == old(ih.epoch) ==> ih.g.info == old(ih.g.info))
  {
    match op
    case Probe(k, t) =>
      var ticket: LeafTicket? := if t < |ts| then ts[t] else null;
      var found, rid := ih.GetValue(k, ticket);
      out := if found then Found(rid) else Missing;
    case Insert(k, r, t, concurrent) =>
      var ticket: LeafTicket? := if t < |ts| then ts[t] else null;
      var ok, leaf := ih.InsertEntry(k, r, ticket, concurrent);
      out := if ok then Inserted else Duplicate;
    case Delete(k) =>
      var deleted := ih.DeleteEntry(k);
      out := if deleted then Deleted else NotThere;
    case Descend(t) =>
      out := Routed(true);
      if t < |ts| && Usable(ih, ts[t]) {
        var leaf := FreshDescent(ih, ts[t]);
        out := Routed(leaf == ts[t].leaf);
      }
  }
}
