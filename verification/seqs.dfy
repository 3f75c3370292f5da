/** Small facts about sequences that the recursive definitions elsewhere lean on. */
module Seqs {

  lemma ConcatFirst<T>(a: seq<T>, b: seq<T>)
    ensures a == [] ==> a + b == b
    ensures a != [] ==> (a + b)[0] == a[0] && (a + b)[1..] == a[1..] + b
  {
  }

  lemma ConcatEmpty<T>(x: seq<T>)
    ensures [] + x == x && x + [] == x
  {
  }

  lemma ConcatAssoc<T>(a: seq<T>, b: seq<T>, c: seq<T>)
    ensures a + (b + c) == (a + b) + c
  {
  }

  lemma PrefixSnoc<T>(xs: seq<T>, i: nat)
    requires i < |xs|
    ensures xs[..i + 1] == xs[..i] + [xs[i]]
  {
  }

  /** Where the parts of `a + b + c` sit in the whole. */
  lemma ConcatParts<T>(a: seq<T>, b: seq<T>, c: seq<T>)
    ensures |a + b + c| == |a| + |b| + |c|
    ensures forall i :: 0 <= i < |a| ==> (a + b + c)[i] == a[i]
    ensures forall i :: 0 <= i < |b| ==> (a + b + c)[|a| + i] == b[i]
    ensures forall i :: 0 <= i < |c| ==> (a + b + c)[|a| + |b| + i] == c[i]
  {
  }

  /** The element at position `k` of `a + b + c`, by the part it falls in. */
  lemma ConcatAt<T>(a: seq<T>, b: seq<T>, c: seq<T>, k: nat)
    requires k < |a| + |b| + |c|
    ensures (a + b + c)[k] == if k < |a| then a[k] else if k < |a| + |b| then b[k - |a|] else c[k - |a| - |b|]
  {
  }

  /** The last part of `a + b + c` sits after the other two. */
  lemma ConcatThird<T>(a: seq<T>, b: seq<T>, c: seq<T>)
    ensures forall k :: 0 <= k < |c| ==> |a| + |b| + k < |a + b + c| && (a + b + c)[|a| + |b| + k] == c[k]
  {
    forall k | 0 <= k < |c|
      ensures |a| + |b| + k < |a + b + c| && (a + b + c)[|a| + |b| + k] == c[k]
    {
      ConcatAt(a, b, c, |a| + |b| + k);
    }
  }

  lemma DiffersAt<T>(x: seq<T>, y: seq<T>, k: nat)
    requires k < |x| && k < |y| && x[k] != y[k]
    ensures x != y
  {
  }

  lemma DiffersWithin<T>(x: seq<T>, y: seq<T>, a: nat, b: nat)
    requires a <= b <= |x| && b <= |y| && x[a..b] != y[a..b]
    ensures x != y
  {
  }

  lemma LastDiffers<T>(x: seq<T>, y: seq<T>)
    requires x != [] && y != [] && x[|x| - 1] != y[|y| - 1]
    ensures x != y
  {
  }
}
