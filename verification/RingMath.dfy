/** Arithmetic shared by all rings: an unbounded position k lives in slot k % n, whose first
    word is at offset e * (k % n). */
module RingMath {
  import opened Bits

  /** Word offset of the slot that holds position k in a ring of n entries of e words. */
  function Offset(n: nat, e: nat, k: nat): (p: nat)
    requires n >= 1
  {
    e * (k % n)
  }

  /** The words of the slot that starts at offset p. */
  function Entry(mem: seq<nat>, e: nat, p: nat): (s: seq<nat>)
    requires p + e <= |mem|
  {
    mem[p..p + e]
  }

  lemma ModStep(k: nat, n: nat)
    requires n >= 1
    ensures (k + 1) % n == (if k % n + 1 == n then 0 else k % n + 1)
  {
    ModStepAt(k / n, k % n, n);
  }

  lemma ModStepAt(q: nat, r: nat, n: nat)
    requires r < n
    ensures (q * n + r + 1) % n == (if r + 1 == n then 0 else r + 1)
  {
    if r + 1 == n {
      assert (q + 1) * n == q * n + n;
      ModIs(q * n + r + 1, n, q + 1, 0);
    } else {
      ModIs(q * n + r + 1, n, q, r + 1);
    }
  }

  /** A masked index that follows a position keeps following it when both are stepped. */
  lemma IndexStep(k: nat, n: nat)
    requires IsPow2(n)
    ensures And(k % n + 1, n - 1) == (k + 1) % n < n
  {
    MaskIsMod(k % n + 1, n);
    ModStep(k, n);
    ModSmall(k % n, n);
    ModStep(k % n, n);
  }

  /** Positions less than one lap apart share a slot only when they are equal, and positions
      exactly one lap apart share it. */
  lemma {:induction false} ModWindow(a: nat, b: nat, n: nat)
    requires n >= 1 && a <= b <= a + n
    ensures a % n == b % n <==> a == b || b == a + n
    ensures b % n == (if a % n + (b - a) < n then a % n + (b - a) else a % n + (b - a) - n)
    decreases b - a
  {
    if a < b {
      ModWindow(a, b - 1, n);
      ModStep(b - 1, n);
    }
  }

  lemma ScaleOrder(e: nat, a: nat, b: nat)
    requires e >= 1
    ensures a < b <==> e * a < e * b
    ensures a == b <==> e * a == e * b
    ensures a < b ==> e * a + e <= e * b
  {
    if a < b {
      MulStrict(a, b, e);
    } else if b < a {
      MulStrict(b, a, e);
    }
  }

  /** Every slot lies wholly inside the ring. */
  lemma OffsetInRing(n: nat, e: nat, k: nat)
    requires n >= 1 && e >= 1
    ensures Offset(n, e, k) + e <= e * n
  {
    ScaleOrder(e, k % n, n);
  }

  /** Stepping a pointer by one entry modulo the ring size, and stepping it with an
      equality test at the end, both reach the next position's slot. */
  lemma NextOffset(n: nat, e: nat, k: nat)
    requires n >= 1 && e >= 1
    ensures (Offset(n, e, k) + e) % (e * n) == Offset(n, e, k + 1)
    ensures (if Offset(n, e, k) + e == e * n then 0 else Offset(n, e, k) + e) == Offset(n, e, k + 1)
  {
    ModStep(k, n);
    var r := k % n;
    ScaleOrder(e, r + 1, n);
    assert e * (r + 1) == e * r + e;
    if r + 1 == n {
      assert (e * n) % (e * n) == 0;
    } else {
      ModSmall(e * r + e, e * n);
    }
  }

  /** Slots of positions less than a lap apart do not overlap. */
  lemma SlotsApart(n: nat, e: nat, a: nat, b: nat)
    requires n >= 1 && e >= 1 && a < b < a + n
    ensures Offset(n, e, a) + e <= Offset(n, e, b) || Offset(n, e, b) + e <= Offset(n, e, a)
  {
    ModWindow(a, b, n);
    ScaleOrder(e, a % n, b % n);
    ScaleOrder(e, b % n, a % n);
  }

  /** Pointer equality decides position equality within a lap. */
  lemma OffsetsEqual(n: nat, e: nat, a: nat, b: nat)
    requires n >= 1 && e >= 1 && a <= b < a + n
    ensures Offset(n, e, a) == Offset(n, e, b) <==> a == b
  {
    ModWindow(a, b, n);
    ScaleOrder(e, a % n, b % n);
  }

  /** Dividing a multiple of the entry size back into entries. */
  lemma DivExact(e: nat, x: nat)
    requires e >= 1
    ensures (e * x) / e == x
  {
    ModIs(e * x, e, x, 0);
  }
}
