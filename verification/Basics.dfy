/** Small notions shared by the other modules. */
module Basics {

  datatype Option<T> = None | Some(value: T)

  ghost predicate NoRepeats<T>(s: seq<T>) {
    forall i, j :: 0 <= i < j < |s| ==> s[i] != s[j]
  }

  lemma NotBefore<T>(s: seq<T>, i: nat)
    requires NoRepeats(s) && i < |s|
    ensures s[i] !in s[..i]
  {
  }

  lemma AppendNew<T>(s: seq<T>, x: T)
    requires NoRepeats(s) && x !in s
    ensures NoRepeats(s + [x])
  {
  }

  lemma Pick<T>(s: set<T>) returns (x: T)
    requires s != {}
    ensures x in s
  {
    x :| x in s;
  }

  lemma {:induction false} SubsetSize<T>(a: set<T>, b: set<T>)
    requires a <= b
    ensures |a| <= |b| && (|a| == |b| ==> a == b)
  {
    if a != {} {
      var x :| x in a;
      SubsetSize(a - {x}, b - {x});
    }
  }

  lemma MulMono(a: int, b: int, w: nat)
    requires a <= b
    ensures a * w <= b * w
  {
    assert b * w - a * w == (b - a) * w;
  }

  lemma MulStep(a: int, b: int, w: nat)
    requires a < b
    ensures a * w + w <= b * w
  {
    MulMono(a + 1, b, w);
    assert (a + 1) * w == a * w + w;
  }

  /** Quotient and remainder are determined by the division equation. */
  lemma DivUnique(k: int, w: nat, q: int, r: int)
    requires w > 0 && k == q * w + r && 0 <= r < w
    ensures k / w == q && k % w == r
  {
    assert k == (k / w) * w + k % w;
    if k / w < q { MulStep(k / w, q, w); }
    if k / w > q { MulStep(q, k / w, w); }
  }
}
