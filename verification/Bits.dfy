/** Bitwise arithmetic on unsigned integers as the driver's C code uses it: masks, shifts,
    the kernel's GENMASK / FIELD_PREP / FIELD_GET macros, power-of-two rounding and
    32-bit unsigned wrap-around. */
module Bits {
  const TWO32: nat := 0x1_0000_0000

  function Pow2(k: nat): (p: nat)
    ensures p >= 1
  {
    if k == 0 then 1 else 2 * Pow2(k - 1)
  }

  /** C's `x & y` on unsigned operands. */
  function And(x: nat, y: nat): nat
    decreases x
  {
    if x == 0 then 0
    else 2 * And(x / 2, y / 2) + (if x % 2 == 1 && y % 2 == 1 then 1 else 0)
  }

  /** C's `x | y` on unsigned operands. */
  function Or(x: nat, y: nat): nat
    decreases x + y
  {
    if x == 0 && y == 0 then 0
    else 2 * Or(x / 2, y / 2) + (if x % 2 == 1 || y % 2 == 1 then 1 else 0)
  }

  /** C's `x & ~y`, for any width that holds x. */
  function AndNot(x: nat, y: nat): nat
    decreases x
  {
    if x == 0 then 0
    else 2 * AndNot(x / 2, y / 2) + (if x % 2 == 1 && y % 2 == 0 then 1 else 0)
  }

  /** C's `x << k` and `x >> k`. */
  function Shl(x: nat, k: nat): nat {
    if k == 0 then x else 2 * Shl(x, k - 1)
  }

  function Shr(x: nat, k: nat): nat {
    if k == 0 then x else Shr(x / 2, k - 1)
  }

  /** A mask of k ones, 2^k - 1. */
  function Ones(k: nat): nat {
    if k == 0 then 0 else 2 * Ones(k - 1) + 1
  }

  /** The k low bits of x. */
  function Low(x: nat, k: nat): nat {
    if k == 0 then 0 else 2 * Low(x / 2, k - 1) + x % 2
  }

  /** `a - b` and `a + b` on u32. */
  function Sub32(a: nat, b: nat): (r: nat)
    ensures r < TWO32
  {
    (a - b) % TWO32
  }

  function Add32(a: nat, b: nat): (r: nat)
    ensures r < TWO32
  {
    (a + b) % TWO32
  }

  lemma Dec32(x: nat)
    requires 0 < x < TWO32
    ensures Sub32(x, 1) == x - 1
  {
  }

  lemma Inc32(x: nat)
    requires x < TWO32 - 1
    ensures Add32(x, 1) == x + 1
  {
  }

  ghost predicate IsPow2(n: nat) {
    exists k: nat :: n == Pow2(k)
  }

  /** The kernel's roundup_pow_of_two for a non-zero argument. */
  function RoundupPow2(n: nat): (p: nat)
    requires n >= 1
  {
    if n == 1 then 1 else 2 * RoundupPow2((n + 1) / 2)
  }

  /** roundup_pow_of_two yields the smallest power of two that is at least its argument. */
  lemma {:induction false} RoundupPow2Least(n: nat)
    requires n >= 1
    ensures IsPow2(RoundupPow2(n))
    ensures n <= RoundupPow2(n) < 2 * n
    ensures forall q: nat :: IsPow2(q) && n <= q ==> RoundupPow2(n) <= q
  {
    if n == 1 {
      assert Pow2(0) == 1;
    } else {
      var m := (n + 1) / 2;
      RoundupPow2Least(m);
      var k: nat :| RoundupPow2(m) == Pow2(k);
      assert RoundupPow2(n) == Pow2(k + 1);
      forall q: nat | IsPow2(q) && n <= q
        ensures RoundupPow2(n) <= q
      {
        var j: nat :| q == Pow2(j);
        assert j > 0;
        assert IsPow2(Pow2(j - 1));
      }
    }
  }

  // ---- masks ------------------------------------------------------------------------

  lemma AndStep(x: nat, y: nat)
    ensures And(x, y) / 2 == And(x / 2, y / 2)
    ensures And(x, y) % 2 == (if x % 2 == 1 && y % 2 == 1 then 1 else 0)
  {
  }

  lemma OrStep(x: nat, y: nat)
    ensures Or(x, y) / 2 == Or(x / 2, y / 2)
    ensures Or(x, y) % 2 == (if x % 2 == 1 || y % 2 == 1 then 1 else 0)
  {
  }

  /** Masking with k ones keeps the k low bits. */
  lemma {:induction false} AndLowMask(x: nat, k: nat)
    ensures And(x, Ones(k)) == Low(x, k)
    decreases k
  {
    if k == 0 {
      AndZero(x);
    } else {
      AndLowMask(x / 2, k - 1);
      AndStep(x, Ones(k));
    }
  }

  lemma {:induction false} OnesValue(k: nat)
    ensures Ones(k) == Pow2(k) - 1
  {
    if k > 0 { OnesValue(k - 1); }
  }

  lemma {:induction false} AndNotZero(x: nat)
    ensures AndNot(x, 0) == x
  {
    if x > 0 { AndNotZero(x / 2); }
  }

  lemma {:induction false} AndBound(x: nat, y: nat)
    ensures And(x, y) <= y
  {
    if x > 0 { AndBound(x / 2, y / 2); }
  }

  lemma {:induction false} AndZero(x: nat)
    ensures And(x, 0) == 0
  {
    if x > 0 { AndZero(x / 2); }
  }

  lemma {:induction false} LowSmall(x: nat, k: nat)
    ensures Low(x, k) < Pow2(k)
    ensures x < Pow2(k) ==> Low(x, k) == x
    decreases k
  {
    if k > 0 { LowSmall(x / 2, k - 1); }
  }

  lemma {:induction false} LowSub(x: nat, k: nat)
    requires x >= Pow2(k)
    ensures Low(x - Pow2(k), k) == Low(x, k)
    decreases k
  {
    if k > 0 {
      var m := Pow2(k - 1);
      assert (x - 2 * m) / 2 == x / 2 - m && (x - 2 * m) % 2 == x % 2;
      LowSub(x / 2, k - 1);
    }
  }

  lemma {:induction false} LowIsMod(x: nat, k: nat)
    ensures Low(x, k) == x % Pow2(k)
    decreases x
  {
    var m := Pow2(k);
    if x < m {
      LowSmall(x, k);
      ModSmall(x, m);
    } else {
      LowSub(x, k);
      LowIsMod(x - m, k);
      ModSub(x, m);
    }
  }

  lemma ModSmall(x: nat, m: nat)
    requires x < m
    ensures x % m == x
  {
  }

  lemma ModSub(x: nat, m: nat)
    requires 1 <= m <= x
    ensures x % m == (x - m) % m
  {
    var q, r := (x - m) / m, (x - m) % m;
    assert x == (q + 1) * m + r;
    ModUnique(x, m, q + 1, r, x / m, x % m);
  }

  /** Quotient and remainder are determined by the division equation. */
  lemma ModUnique(x: nat, m: nat, q0: nat, r0: nat, q1: nat, r1: nat)
    requires r0 < m && r1 < m
    requires x == q0 * m + r0 && x == q1 * m + r1
    ensures q0 == q1 && r0 == r1
  {
    if q0 < q1 {
      MulStrict(q0, q1, m);
    } else if q1 < q0 {
      MulStrict(q1, q0, m);
    }
  }

  lemma ModIs(x: nat, m: nat, q: nat, r: nat)
    requires r < m && x == q * m + r
    ensures x / m == q && x % m == r
  {
    ModUnique(x, m, q, r, x / m, x % m);
  }

  lemma {:induction false} MulStrict(a: nat, b: nat, m: nat)
    requires a < b
    ensures a * m + m <= b * m
    decreases b
  {
    assert b * m == (b - 1) * m + m;
    if a + 1 < b { MulStrict(a, b - 1, m); }
  }

  /** The driver's `i & nentries_mask` is the remainder by nentries because nentries is a
      power of two. */
  lemma MaskIsMod(i: nat, n: nat)
    requires IsPow2(n)
    ensures And(i, n - 1) == i % n
  {
    var k: nat :| n == Pow2(k);
    OnesValue(k);
    AndLowMask(i, k);
    LowIsMod(i, k);
  }

  // ---- bit-fields -------------------------------------------------------------------

  /** A field occupying bits hi..lo of a word. */
  datatype Field = Field(hi: nat, lo: nat)

  predicate ValidField(f: Field) { f.lo <= f.hi }

  function Width(f: Field): nat
    requires ValidField(f)
  {
    f.hi - f.lo + 1
  }

  predicate Disjoint(f: Field, g: Field) { f.hi < g.lo || g.hi < f.lo }

  /** GENMASK(hi, lo). */
  function GenMask(f: Field): nat
    requires ValidField(f)
  {
    Shl(Ones(Width(f)), f.lo)
  }

  /** FIELD_PREP(mask, v): shift the value to the field and mask it. */
  function FieldPrep(f: Field, v: nat): nat
    requires ValidField(f)
  {
    And(Shl(v, f.lo), GenMask(f))
  }

  /** FIELD_GET(mask, w): mask the word and shift the field down. */
  function FieldGet(f: Field, w: nat): nat
    requires ValidField(f)
  {
    Shr(And(w, GenMask(f)), f.lo)
  }

  /** A word assembled by or-ing one FIELD_PREP per field. */
  function Pack(fs: seq<Field>, vs: seq<nat>): nat
    requires |fs| == |vs| && forall f :: f in fs ==> ValidField(f)
  {
    if fs == [] then 0 else Or(FieldPrep(fs[0], vs[0]), Pack(fs[1..], vs[1..]))
  }

  /** Masking with GENMASK and shifting down reads a slice of bits. */
  lemma {:induction false} FieldGetValue(f: Field, w: nat)
    requires ValidField(f)
    ensures FieldGet(f, w) == Low(Shr(w, f.lo), Width(f))
    decreases f.lo
  {
    if f.lo == 0 {
      AndLowMask(w, Width(f));
    } else {
      var g := Field(f.hi - 1, f.lo - 1);
      FieldGetValue(g, w / 2);
      AndStep(w, GenMask(f));
      assert GenMask(f) == 2 * GenMask(g);
    }
  }

  /** FIELD_PREP places the value, cut to the field's width, at the field's position. */
  lemma {:induction false} FieldPrepValue(f: Field, v: nat)
    requires ValidField(f)
    ensures FieldPrep(f, v) == Shl(Low(v, Width(f)), f.lo)
    decreases f.lo
  {
    if f.lo == 0 {
      AndLowMask(v, Width(f));
    } else {
      var g := Field(f.hi - 1, f.lo - 1);
      FieldPrepValue(g, v);
      AndStep(Shl(v, f.lo), GenMask(f));
      assert GenMask(f) == 2 * GenMask(g) && Shl(v, f.lo) == 2 * Shl(v, g.lo);
    }
  }

  lemma {:induction false} ShrShl(x: nat, k: nat)
    ensures Shr(Shl(x, k), k) == x
  {
    if k > 0 { ShrShl(x, k - 1); }
  }

  /** A value shifted past a slice leaves the slice empty. */
  lemma {:induction false} SliceBelow(x: nat, up: nat, lo: nat, w: nat)
    requires lo + w <= up
    ensures Low(Shr(Shl(x, up), lo), w) == 0
    decreases up
  {
    if lo > 0 {
      SliceBelow(x, up - 1, lo - 1, w);
    } else if w > 0 {
      SliceBelow(x, up - 1, 0, w - 1);
    }
  }

  /** A value too small to reach a slice leaves it empty. */
  lemma {:induction false} SliceAbove(x: nat, lo: nat, w: nat)
    requires x < Pow2(lo)
    ensures Low(Shr(x, lo), w) == 0
    decreases lo + w
  {
    if lo > 0 {
      SliceAbove(x / 2, lo - 1, w);
    } else if w > 0 {
      SliceAbove(0, 0, w - 1);
    }
  }

  lemma {:induction false} ShlSmall(x: nat, k: nat, b: nat)
    requires x < Pow2(b)
    ensures Shl(x, k) < Pow2(b + k)
    decreases k
  {
    if k > 0 { ShlSmall(x, k - 1, b); }
  }

  lemma {:induction false} Pow2Grows(a: nat, b: nat)
    requires a <= b
    ensures Pow2(a) <= Pow2(b)
    decreases b
  {
    if a < b { Pow2Grows(a, b - 1); }
  }

  lemma FieldGetOwn(f: Field, v: nat)
    requires ValidField(f)
    ensures FieldGet(f, FieldPrep(f, v)) == Low(v, Width(f))
  {
    var t := Low(v, Width(f));
    FieldPrepValue(f, v);
    FieldGetValue(f, FieldPrep(f, v));
    ShrShl(t, f.lo);
    LowSmall(v, Width(f));
    LowSmall(t, Width(f));
  }

  lemma FieldGetOther(f: Field, g: Field, v: nat)
    requires ValidField(f) && ValidField(g) && Disjoint(f, g)
    ensures FieldGet(f, FieldPrep(g, v)) == 0
  {
    var t := Low(v, Width(g));
    FieldPrepValue(g, v);
    FieldGetValue(f, FieldPrep(g, v));
    if g.hi < f.lo {
      LowSmall(v, Width(g));
      ShlSmall(t, g.lo, Width(g));
      Pow2Grows(g.hi + 1, f.lo);
      SliceAbove(Shl(t, g.lo), f.lo, Width(f));
    } else {
      SliceBelow(t, g.lo, f.lo, Width(f));
    }
  }

  lemma {:induction false} AndOrDistributes(a: nat, b: nat, m: nat)
    ensures And(Or(a, b), m) == Or(And(a, m), And(b, m))
    decreases a + b
  {
    if a > 0 || b > 0 {
      AndOrDistributes(a / 2, b / 2, m / 2);
      OrStep(And(a, m), And(b, m));
      OrStep(a, b);
      AndStep(a, m);
      AndStep(b, m);
      AndStep(Or(a, b), m);
    }
  }

  lemma {:induction false} OrShift(a: nat, b: nat, k: nat)
    ensures Shr(Or(a, b), k) == Or(Shr(a, k), Shr(b, k))
    decreases k
  {
    if k > 0 {
      OrStep(a, b);
      OrShift(a / 2, b / 2, k - 1);
    }
  }

  lemma {:induction false} OrZero(x: nat)
    ensures Or(x, 0) == x && Or(0, x) == x
  {
    if x > 0 { OrZero(x / 2); }
  }

  lemma FieldGetOr(f: Field, a: nat, b: nat)
    requires ValidField(f)
    ensures FieldGet(f, Or(a, b)) == Or(FieldGet(f, a), FieldGet(f, b))
  {
    AndOrDistributes(a, b, GenMask(f));
    OrShift(And(a, GenMask(f)), And(b, GenMask(f)), f.lo);
  }

  ghost predicate PairwiseDisjoint(fs: seq<Field>) {
    forall i, j :: 0 <= i < j < |fs| ==> Disjoint(fs[i], fs[j])
  }

  lemma {:induction false} FieldGetOutside(f: Field, fs: seq<Field>, vs: seq<nat>)
    requires ValidField(f) && |fs| == |vs| && forall g :: g in fs ==> ValidField(g) && Disjoint(f, g)
    ensures FieldGet(f, Pack(fs, vs)) == 0
    decreases |fs|
  {
    if fs == [] {
      FieldGetValue(f, 0);
      SliceAbove(0, f.lo, Width(f));
    } else {
      FieldGetOther(f, fs[0], vs[0]);
      FieldGetOutside(f, fs[1..], vs[1..]);
      FieldGetOr(f, FieldPrep(fs[0], vs[0]), Pack(fs[1..], vs[1..]));
    }
  }

  /** For every layout of non-overlapping fields, reading a field of the packed word recovers
      the value stored there, cut to the field's width; the value is recovered whole exactly
      when it fits. */
  lemma {:induction false} PackRoundTrip(fs: seq<Field>, vs: seq<nat>, i: nat)
    requires |fs| == |vs| && (forall f :: f in fs ==> ValidField(f)) && PairwiseDisjoint(fs)
    requires i < |fs|
    ensures FieldGet(fs[i], Pack(fs, vs)) == Low(vs[i], Width(fs[i]))
    ensures FieldGet(fs[i], Pack(fs, vs)) == vs[i] <==> vs[i] < Pow2(Width(fs[i]))
    decreases |fs|
  {
    LowSmall(vs[i], Width(fs[i]));
    FieldGetOr(fs[i], FieldPrep(fs[0], vs[0]), Pack(fs[1..], vs[1..]));
    if i == 0 {
      FieldGetOwn(fs[0], vs[0]);
      FieldGetOutside(fs[0], fs[1..], vs[1..]);
    } else {
      FieldGetOther(fs[i], fs[0], vs[0]);
      PackRoundTrip(fs[1..], vs[1..], i - 1);
    }
    OrZero(Low(vs[i], Width(fs[i])));
  }
}
