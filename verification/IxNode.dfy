/** Searching and editing within one index page. */
module IxNode {
  import opened IxModel
  import opened IxSteps

  /** First slot whose key is not below `target`. */
  method LowerBound(ents: seq<Entry>, target: Key) returns (lo: nat)
    requires Sorted(ents, 0)
    ensures lo <= |ents|
    ensures forall i {:trigger ents[i]} :: 0 <= i < lo ==> ents[i].key < target
    ensures forall i {:trigger ents[i]} :: lo <= i < |ents| ==> target <= ents[i].key
  {
    lo := 0;
    var hi := |ents|;
    while lo < hi
      invariant 0 <= lo <= hi <= |ents|
      invariant forall i {:trigger ents[i]} :: 0 <= i < lo ==> ents[i].key < target
      invariant forall i {:trigger ents[i]} :: hi <= i < |ents| ==> target <= ents[i].key
    {
      var mid := (lo + hi) / 2;
      if ents[mid].key < target {
        lo := mid + 1;
      } else {
        hi := mid;
      }
    }
  }

  /** First slot whose key is above `target`. Only the slots from 1 on need to be sorted: slot 0 is
      probed last, when the answer is 0 or 1 already, so whatever it holds leaves the caller with
      the same child. */
  method UpperBound(ents: seq<Entry>, target: Key) returns (lo: nat)
    requires Sorted(ents, 1)
    ensures lo <= |ents|
    ensures forall i {:trigger ents[i]} :: 1 <= i < lo ==> ents[i].key <= target
    ensures forall i {:trigger ents[i]} :: 1 <= i && lo <= i < |ents| ==> target < ents[i].key
    ensures Sorted(ents, 0) ==> (lo > 0 ==> ents[0].key <= target) && (lo == 0 && |ents| > 0 ==> target < ents[0].key)
  {
    lo := 0;
    var hi := |ents|;
    while lo < hi
      invariant 0 <= lo <= hi <= |ents|
      invariant forall i {:trigger ents[i]} :: 1 <= i < lo ==> ents[i].key <= target
      invariant forall i {:trigger ents[i]} :: 1 <= i && hi <= i < |ents| ==> target < ents[i].key
      invariant Sorted(ents, 0) && lo > 0 ==> ents[0].key <= target
      invariant hi == 0 && |ents| > 0 ==> target < ents[0].key
    {
      var mid := (lo + hi) / 2;
      if ents[mid].key <= target {
        lo := mid + 1;
      } else {
        hi := mid;
      }
    }
  }

  /** Slot of the child an internal page sends `target` to. */
  method ChildSlot(ents: seq<Entry>, target: Key) returns (slot: nat)
    requires |ents| > 0 && Sorted(ents, 1)
    ensures slot < |ents|
    ensures slot > 0 ==> ents[slot].key <= target
    ensures slot + 1 < |ents| ==> target < ents[slot + 1].key
  {
    var pos := UpperBound(ents, target);
    if pos == 0 {
      pos := 1;
    }
    slot := pos - 1;
  }

  /** Index of the first slot naming page `child`, or the size when none does. */
  method FindChild(ents: seq<Entry>, child: int) returns (i: nat)
    ensures i <= |ents|
    ensures i < |ents| ==> ents[i].rid.pageNo == child
    ensures forall k {:trigger ents[k]} :: 0 <= k < i ==> ents[k].rid.pageNo != child
  {
    i := 0;
    while i < |ents| && ents[i].rid.pageNo != child
      invariant i <= |ents|
      invariant forall k {:trigger ents[k]} :: 0 <= k < i ==> ents[k].rid.pageNo != child
    {
      i := i + 1;
    }
  }

  /** The bytes of a page: two fixed arrays with room for `btree_order + 1` pairs, of which the
      first `num` are in use. */
  class PageBuffer {
    const keys: array<Key>
    const rids: array<Rid>
    var num: nat

    ghost predicate Valid()
      reads this
    {
      keys.Length == rids.Length && num <= keys.Length
    }

    ghost function Ents(): seq<Entry>
      requires Valid()
      reads this, keys, rids
    {
      seq(num, i requires 0 <= i < num
          && num <= keys.Length == rids.Length reads this, keys, rids => Entry(keys[i], rids[i]))
    }

    constructor (order: nat)
      ensures Valid() && fresh(keys) && fresh(rids)
      ensures keys.Length == order + 1 && num == 0
    {
      keys := new Key[order + 1](_ => 0);
      rids := new Rid[order + 1](_ => Rid(0, 0));
      num := 0;
    }

    /** Shifts the pairs from `pos` on by |more| slots and writes `more` into the gap. */
    method InsertPairs(pos: nat, more: seq<Entry>)
      requires Valid() && pos <= num && num + |more| <= keys.Length
      modifies this`num, keys, rids
      ensures Valid()
      ensures Ents() == old(Ents())[..pos] + more + old(Ents())[pos..]
    {
      var n := |more|;
      ghost var was := Ents();
      var i := num;
      while i > pos
        invariant pos <= i <= num == old(num)
        invariant forall k {:trigger keys[k]} {:trigger rids[k]} :: 0 <= k < i ==> Entry(keys[k], rids[k]) == was[k]
        invariant forall k {:trigger keys[k]} {:trigger rids[k]} :: i + n <= k < num + n ==>
                    Entry(keys[k], rids[k]) == was[k - n]
      {
        i := i - 1;
        keys[i + n], rids[i + n] := keys[i], rids[i];
      }
      i := 0;
      while i < n
        invariant 0 <= i <= n && num == old(num)
        invariant forall k {:trigger keys[k]} {:trigger rids[k]} :: 0 <= k < pos ==> Entry(keys[k], rids[k]) == was[k]
        invariant forall k {:trigger keys[k]} {:trigger rids[k]} :: pos <= k < pos + i ==>
                    Entry(keys[k], rids[k]) == more[k - pos]
        invariant forall k {:trigger keys[k]} {:trigger rids[k]} :: pos + n <= k < num + n ==>
                    Entry(keys[k], rids[k]) == was[k - n]
      {
        keys[pos + i], rids[pos + i] := more[i].key, more[i].rid;
        i := i + 1;
      }
      num := num + n;
    }

    /** Shifts the pairs behind `pos` left over it. */
    method ErasePair(pos: nat)
      requires Valid() && pos < num
      modifies this`num, keys, rids
      ensures Valid()
      ensures Ents() == RemoveAt(old(Ents()), pos)
    {
      ghost var was := Ents();
      var i := pos;
      while i < num - 1
        invariant pos <= i <= num - 1 && num == old(num)
        invariant forall k {:trigger keys[k]} {:trigger rids[k]} :: 0 <= k < pos ==> Entry(keys[k], rids[k]) == was[k]
        invariant forall k {:trigger keys[k]} {:trigger rids[k]} :: pos <= k < i ==>
                    Entry(keys[k], rids[k]) == was[k + 1]
        invariant forall k {:trigger keys[k]} {:trigger rids[k]} :: i < k < num ==> Entry(keys[k], rids[k]) == was[k]
      {
        keys[i], rids[i] := keys[i + 1], rids[i + 1];
        i := i + 1;
      }
      num := num - 1;
    }
  }
}
