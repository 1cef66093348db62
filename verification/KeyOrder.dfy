/** Composite keys: `ix_compare` and the integers the tree model uses in their place.

    A column value is a number below the column's radix: 2^32 for INT, 256 for each byte of a fixed
    string, the number of finite values for FLOAT, all counted in column order. */
module KeyOrder {
  import opened Basics

  /** `a` comes before `b` when the first column they differ in says so. */
  predicate LexLess(a: seq<int>, b: seq<int>)
    requires |a| == |b|
    decreases |a|
  {
    |a| > 0 && (a[0] < b[0] || (a[0] == b[0] && LexLess(a[1..], b[1..])))
  }

  predicate LexLeq(a: seq<int>, b: seq<int>)
    requires |a| == |b|
  {
    a == b || LexLess(a, b)
  }

  /** Column by column comparison; negative, zero or positive. */
  method Compare(a: seq<int>, b: seq<int>) returns (res: int)
    requires |a| == |b|
    ensures res < 0 <==> LexLess(a, b)
    ensures res > 0 <==> LexLess(b, a)
    ensures res == 0 <==> a == b
  {
    var i := 0;
    while i < |a|
      invariant 0 <= i <= |a| && a[..i] == b[..i]
      invariant LexLess(a, b) <==> LexLess(a[i..], b[i..])
      invariant LexLess(b, a) <==> LexLess(b[i..], a[i..])
    {
      assert a[i..][1..] == a[i + 1..] && b[i..][1..] == b[i + 1..];
      if a[i] < b[i] {
        LessOneWay(a[i..], b[i..]);
        return -1;
      }
      if a[i] > b[i] {
        LessOneWay(b[i..], a[i..]);
        return 1;
      }
      i := i + 1;
    }
    assert a == a[..i] && b == b[..i];
    return 0;
  }

  lemma {:induction false} LessOneWay(a: seq<int>, b: seq<int>)
    requires |a| == |b| && LexLess(a, b)
    ensures a != b && !LexLess(b, a)
    decreases |a|
  {
    if a[0] == b[0] { LessOneWay(a[1..], b[1..]); }
  }

  predicate InRange(key: seq<int>, radices: seq<nat>) {
    |key| == |radices| && forall i :: 0 <= i < |key| ==> 0 <= key[i] < radices[i]
  }

  /** Number of keys with these columns. */
  function Weight(radices: seq<nat>): nat
    decreases |radices|
  {
    if radices == [] then 1 else radices[0] * Weight(radices[1..])
  }

  /** Position of a key among all keys with its columns. */
  function Rank(key: seq<int>, radices: seq<nat>): int
    requires |key| == |radices|
    decreases |key|
  {
    if key == [] then 0 else key[0] * Weight(radices[1..]) + Rank(key[1..], radices[1..])
  }

  lemma {:induction false} RankBounds(key: seq<int>, radices: seq<nat>)
    requires InRange(key, radices)
    ensures 0 <= Rank(key, radices) < Weight(radices)
    decreases |key|
  {
    if key != [] {
      RankBounds(key[1..], radices[1..]);
      var w := Weight(radices[1..]);
      MulStep(key[0], radices[0], w);
      MulMono(0, key[0], w);
    }
  }

  /** The tree may compare ranks instead of keys: ranks are ordered exactly as the keys are, and
      different keys have different ranks. */
  lemma {:induction false} RankOrder(a: seq<int>, b: seq<int>, radices: seq<nat>)
    requires InRange(a, radices) && InRange(b, radices)
    ensures LexLess(a, b) <==> Rank(a, radices) < Rank(b, radices)
    ensures a == b <==> Rank(a, radices) == Rank(b, radices)
    decreases |a|
  {
    if a != [] {
      var w := Weight(radices[1..]);
      RankOrder(a[1..], b[1..], radices[1..]);
      RankBounds(a[1..], radices[1..]);
      RankBounds(b[1..], radices[1..]);
      if a[0] < b[0] { MulStep(a[0], b[0], w); }
      if b[0] < a[0] { MulStep(b[0], a[0], w); }
      if a[0] == b[0] && a[1..] == b[1..] { assert a == [a[0]] + a[1..] && b == [b[0]] + b[1..]; }
    }
  }

  /** Splitting off the leading column splits the rank by division. */
  lemma RankLeading(key: seq<int>, radices: seq<nat>)
    requires InRange(key, radices) && key != []
    ensures var w := Weight(radices[1..]);
            && w > 0
            && Rank(key, radices) / w == key[0]
            && Rank(key, radices) % w == Rank(key[1..], radices[1..])
  {
    RankBounds(key[1..], radices[1..]);
    var w, q, r := Weight(radices[1..]), key[0], Rank(key[1..], radices[1..]);
    var k := Rank(key, radices);
    assert k == q * w + r && 0 <= r < w;
    DivUnique(k, w, q, r);
  }

  // ---------------------------------------------------------------- how many pairs fit a page

  const PAGE_SIZE: nat := 4096
  const PAGE_HDR_SIZE: nat := 24
  const RID_SIZE: nat := 8
  const MAX_COL_LEN: nat := 512

  lemma SevenFit(each: nat)
    requires 0 < each <= MAX_COL_LEN + RID_SIZE
    ensures (PAGE_SIZE - PAGE_HDR_SIZE) / each >= 7
  {
    var n := (PAGE_SIZE - PAGE_HDR_SIZE) / each;
    assert n * each + (PAGE_SIZE - PAGE_HDR_SIZE) % each == PAGE_SIZE - PAGE_HDR_SIZE;
    if n < 7 { MulStep(n, 7, each); }
  }

  /** `create_index`: the largest order that leaves room for one pair more than it. */
  function BtreeOrder(colTotLen: nat): (order: int)
    requires colTotLen <= MAX_COL_LEN
    ensures order > 2
    ensures PAGE_HDR_SIZE + (order + 1) * (colTotLen + RID_SIZE) <= PAGE_SIZE
    ensures PAGE_SIZE < PAGE_HDR_SIZE + (order + 2) * (colTotLen + RID_SIZE)
  {
    var each, room := colTotLen + RID_SIZE, PAGE_SIZE - PAGE_HDR_SIZE;
    var n := room / each;
    assert n * each + room % each == room;
    SevenFit(each);
    assert (n + 1) * each == n * each + each;
    n - 1
  }
}
