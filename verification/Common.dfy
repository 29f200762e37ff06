/** What every part of the driver shares: optional values, stores into memory, error numbers. */
module Common {
  datatype Option<+T> = None | Some(value: T)

  const EIO: int := 5
  const ENOMEM: int := 12
  const ENOSPC: int := 28
  const ENOBUFS: int := 105
  const ESHUTDOWN: int := 108

  /** b with w written over the elements at p. */
  function Overwrite(b: seq<nat>, p: nat, w: seq<nat>): (r: seq<nat>)
    requires p + |w| <= |b|
    ensures |r| == |b|
  {
    b[..p] + w + b[p + |w|..]
  }

  /** Sequences that agree at every element are equal. */
  lemma SameSeq(x: seq<nat>, y: seq<nat>)
    requires |x| == |y| && forall i :: 0 <= i < |x| ==> x[i] == y[i]
    ensures x == y
  {
  }

  /** Overwrite element by element. */
  lemma OverwriteAt(b: seq<nat>, p: nat, w: seq<nat>, i: nat)
    requires p + |w| <= |b| && i < |b|
    ensures Overwrite(b, p, w)[i] == if p <= i < p + |w| then w[i - p] else b[i]
  {
  }

  /** A sequence that agrees with Overwrite at every element is Overwrite. */
  lemma OverwriteIs(b: seq<nat>, p: nat, w: seq<nat>, c: seq<nat>)
    requires p + |w| <= |b| == |c|
    requires forall i :: 0 <= i < |b| ==> c[i] == if p <= i < p + |w| then w[i - p] else b[i]
    ensures c == Overwrite(b, p, w)
  {
    forall i | 0 <= i < |b| ensures c[i] == Overwrite(b, p, w)[i] {
      OverwriteAt(b, p, w, i);
    }
  }

  /** What Overwrite wrote, and what it left alone before and after. */
  lemma OverwriteSlice(b: seq<nat>, p: nat, w: seq<nat>, q: nat, k: nat)
    requires p + |w| <= |b| && q + k <= |b|
    ensures Overwrite(b, p, w)[p..p + |w|] == w
    ensures q + k <= p || p + |w| <= q ==> Overwrite(b, p, w)[q..q + k] == b[q..q + k]
  {
    var c := Overwrite(b, p, w);
    forall i | 0 <= i < |w| ensures c[p..p + |w|][i] == w[i] {
      OverwriteAt(b, p, w, p + i);
    }
    if q + k <= p || p + |w| <= q {
      var x, y := c[q..q + k], b[q..q + k];
      forall i | 0 <= i < k ensures x[i] == y[i] {
        OverwriteAt(b, p, w, q + i);
      }
    }
  }
}
