/** Descriptor and ring-configuration words exchanged with the device, and the decoding the
    device has to perform on them. The encoders are written against a field layout; HAL is the
    driver's layout, and the round trips hold for every layout whose fields do not overlap. */
module Descriptors {
  import opened Bits

  /** Where each field sits in its word, and how many address bits go into the low word. */
  datatype Layout = Layout(
    shift: nat,
    addrHi: Field, swap: Field, gather: Field, length: Field,   // descriptor info word
    id: Field,                                                  // descriptor meta word
    ringSize: Field,                                            // shares a register with addrHi
    ringId: Field, entrySize: Field)                            // ring id register

  const HAL := Layout(32, Field(7, 0), Field(9, 9), Field(11, 11), Field(31, 16),
                      Field(15, 0), Field(27, 8), Field(15, 8), Field(7, 0))

  const SRC_FLAGS: nat := 0x114514ff
  const DST_FLAG: nat := 0x114514aa

  ghost predicate ValidLayout(L: Layout) {
    && ValidField(L.addrHi) && ValidField(L.swap) && ValidField(L.gather) && ValidField(L.length)
    && ValidField(L.id) && ValidField(L.ringSize) && ValidField(L.ringId) && ValidField(L.entrySize)
    && PairwiseDisjoint([L.addrHi, L.swap, L.gather, L.length])
    && Disjoint(L.addrHi, L.ringSize) && Disjoint(L.ringId, L.entrySize)
  }

  /** The driver's fields do not overlap; addresses have 40 bits, lengths and transfer ids 16,
      ring sizes 20, ring ids and entry sizes 8. */
  lemma HalLayout()
    ensures ValidLayout(HAL)
    ensures HAL.shift + Width(HAL.addrHi) == 40 && Width(HAL.swap) == 1
    ensures Width(HAL.length) == 16 && Width(HAL.id) == 16
    ensures Width(HAL.ringSize) == 20 && Width(HAL.ringId) == 8 && Width(HAL.entrySize) == 8
  {
  }

  function AddrLow(L: Layout, paddr: nat): nat { And(paddr, Ones(L.shift)) }

  function AddrHigh(L: Layout, paddr: nat): nat { Shr(paddr, L.shift) }

  /** The three words wireless_simu_test_dst_set_desc writes. */
  function DstDesc(L: Layout, paddr: nat): (d: seq<nat>)
    requires ValidField(L.addrHi)
    ensures |d| == 3
  {
    [AddrLow(L, paddr), FieldPrep(L.addrHi, AddrHigh(L, paddr)), DST_FLAG]
  }

  /** The five words wireless_simu_hal_srng_test_src_set_desc writes. */
  function SrcDesc(L: Layout, paddr: nat, len: nat, id: nat, swap: nat, writeIndex: nat): (d: seq<nat>)
    requires ValidField(L.addrHi) && ValidField(L.swap) && ValidField(L.gather) && ValidField(L.length) && ValidField(L.id)
    ensures |d| == 5
  {
    [AddrLow(L, paddr),
     Pack([L.addrHi, L.swap, L.gather, L.length], [AddrHigh(L, paddr), swap, 0, len]),
     FieldPrep(L.id, id),
     writeIndex,
     SRC_FLAGS]
  }

  /** The buffer address a device reads out of a descriptor's first two words. */
  function DecodeAddr(L: Layout, low: nat, info: nat): nat
    requires ValidField(L.addrHi)
  {
    low + Shl(FieldGet(L.addrHi, info), L.shift)
  }

  lemma {:induction false} LowSplit(x: nat, a: nat, b: nat)
    ensures Low(x, a) + Shl(Low(Shr(x, a), b), a) == Low(x, a + b)
    decreases a
  {
    if a > 0 { LowSplit(x / 2, a - 1, b); }
  }

  lemma {:induction false} LowHigh(x: nat, k: nat)
    ensures Low(x, k) + Shl(Shr(x, k), k) == x
    decreases k
  {
    if k > 0 { LowHigh(x / 2, k - 1); }
  }

  /** The two halves of an address make it up. */
  lemma HalvesJoin(L: Layout, x: nat)
    ensures AddrLow(L, x) + Shl(AddrHigh(L, x), L.shift) == x
  {
    AndLowMask(x, L.shift);
    LowHigh(x, L.shift);
  }

  /** Reading back a packed address gives its low bits, hence the address itself exactly when
      it fits. */
  lemma AddrDecodes(L: Layout, paddr: nat, info: nat)
    requires ValidField(L.addrHi) && FieldGet(L.addrHi, info) == Low(AddrHigh(L, paddr), Width(L.addrHi))
    ensures DecodeAddr(L, AddrLow(L, paddr), info) == paddr <==> paddr < Pow2(L.shift + Width(L.addrHi))
  {
    AndLowMask(paddr, L.shift);
    LowSplit(paddr, L.shift, Width(L.addrHi));
    LowSmall(paddr, L.shift + Width(L.addrHi));
  }

  /** The receive descriptor carries the buffer address faithfully iff it fits the layout. */
  lemma DstDescRoundTrip(L: Layout, paddr: nat)
    requires ValidLayout(L)
    ensures var d := DstDesc(L, paddr);
            && (DecodeAddr(L, d[0], d[1]) == paddr <==> paddr < Pow2(L.shift + Width(L.addrHi)))
            && d[2] == 0x114514aa
  {
    FieldGetOwn(L.addrHi, AddrHigh(L, paddr));
    AddrDecodes(L, paddr, DstDesc(L, paddr)[1]);
  }

  /** A transmit descriptor decodes to its address, length, swap bit, transfer id and write
      index; each field is recovered exactly when it fits. */
  lemma SrcDescRoundTrip(L: Layout, paddr: nat, len: nat, id: nat, swap: nat, writeIndex: nat)
    requires ValidLayout(L)
    ensures var d := SrcDesc(L, paddr, len, id, swap, writeIndex);
            && (DecodeAddr(L, d[0], d[1]) == paddr <==> paddr < Pow2(L.shift + Width(L.addrHi)))
            && (FieldGet(L.swap, d[1]) == swap <==> swap < Pow2(Width(L.swap)))
            && FieldGet(L.gather, d[1]) == 0
            && (FieldGet(L.length, d[1]) == len <==> len < Pow2(Width(L.length)))
            && (FieldGet(L.id, d[2]) == id <==> id < Pow2(Width(L.id)))
            && d[3] == writeIndex && d[4] == 0x114514ff
  {
    var fs, vs := [L.addrHi, L.swap, L.gather, L.length], [AddrHigh(L, paddr), swap, 0, len];
    PackRoundTrip(fs, vs, 0);
    PackRoundTrip(fs, vs, 1);
    PackRoundTrip(fs, vs, 2);
    PackRoundTrip(fs, vs, 3);
    FieldGetOwn(L.id, id);
    LowSmall(id, Width(L.id));
    LowSmall(0, Width(L.gather));
    AddrDecodes(L, paddr, Pack(fs, vs));
  }

  /** The register words hal_srng_*_hw_init writes for a ring's base, size, id and entry size. */
  function BaseMsbReg(L: Layout, base: nat, sizeWords: nat): nat
    requires ValidField(L.addrHi) && ValidField(L.ringSize)
  {
    Or(FieldPrep(L.addrHi, AddrHigh(L, base)), FieldPrep(L.ringSize, sizeWords))
  }

  function RingIdReg(L: Layout, ringId: nat, entryWords: nat): nat
    requires ValidField(L.ringId) && ValidField(L.entrySize)
  {
    Or(FieldPrep(L.ringId, ringId), FieldPrep(L.entrySize, entryWords))
  }

  lemma TwoFields(f: Field, g: Field, x: nat, y: nat)
    requires ValidField(f) && ValidField(g) && Disjoint(f, g)
    ensures var w := Or(FieldPrep(f, x), FieldPrep(g, y));
            && FieldGet(f, w) == Low(x, Width(f)) && FieldGet(g, w) == Low(y, Width(g))
            && (FieldGet(f, w) == x <==> x < Pow2(Width(f)))
            && (FieldGet(g, w) == y <==> y < Pow2(Width(g)))
  {
    FieldGetOr(f, FieldPrep(f, x), FieldPrep(g, y));
    FieldGetOr(g, FieldPrep(f, x), FieldPrep(g, y));
    FieldGetOwn(f, x);
    FieldGetOwn(g, y);
    FieldGetOther(f, g, y);
    FieldGetOther(g, f, x);
    OrZero(Low(x, Width(f)));
    OrZero(Low(y, Width(g)));
    LowSmall(x, Width(f));
    LowSmall(y, Width(g));
  }

  /** The device recovers base address, ring size, ring id and entry size from the registers,
      each exactly when it fits its field. */
  lemma RegisterRoundTrip(L: Layout, base: nat, sizeWords: nat, ringId: nat, entryWords: nat)
    requires ValidLayout(L)
    ensures var msb := BaseMsbReg(L, base, sizeWords);
            && (DecodeAddr(L, AddrLow(L, base), msb) == base <==> base < Pow2(L.shift + Width(L.addrHi)))
            && (FieldGet(L.ringSize, msb) == sizeWords <==> sizeWords < Pow2(Width(L.ringSize)))
    ensures var idr := RingIdReg(L, ringId, entryWords);
            && (FieldGet(L.ringId, idr) == ringId <==> ringId < Pow2(Width(L.ringId)))
            && (FieldGet(L.entrySize, idr) == entryWords <==> entryWords < Pow2(Width(L.entrySize)))
  {
    TwoFields(L.addrHi, L.ringSize, AddrHigh(L, base), sizeWords);
    TwoFields(L.ringId, L.entrySize, ringId, entryWords);
    AddrDecodes(L, base, BaseMsbReg(L, base, sizeWords));
  }

  // ---- the DMA region behind a ring -------------------------------------------------

  const ALIGN: nat := 8   // SRNG_TEST_DESC_RING_ALIGN

  /** ALIGN / PTR_ALIGN to 8 bytes: (x + 7) & ~7. */
  function AlignUp(x: nat): nat {
    AndNot(x + 7, ALIGN - 1)
  }

  lemma AlignUpValue(x: nat)
    ensures AlignUp(x) == 8 * ((x + 7) / 8)
    ensures x <= AlignUp(x) < x + 8
  {
    var y := x + 7;
    AndNotStep(y, 7);
    AndNotStep(y / 2, 3);
    AndNotStep(y / 4, 1);
    AndNotZero(y / 8);
    assert y / 2 / 2 == y / 4 && y / 4 / 2 == y / 8;
  }

  lemma AndNotStep(x: nat, y: nat)
    requires y % 2 == 1
    ensures AndNot(x, y) == 2 * AndNot(x / 2, y / 2)
  {
  }

  /** A descriptor at any slot of a ring set up in the aligned region lies wholly inside the
      nentries * desc_sz + 8 bytes that were allocated, and is 4-byte aligned. */
  lemma DescriptorInAllocation(base: nat, n: nat, e: nat, p: nat)
    requires p + e <= e * n
    ensures var first := AlignUp(base) + 4 * p;
            && base <= first && first + 4 * e <= base + (4 * (e * n) + ALIGN)
            && first % 4 == 0
  {
    AlignUpValue(base);
    var q := (base + 7) / 8;
    assert AlignUp(base) + 4 * p == 4 * (2 * q + p);
  }

  /** How far an address is moved. */
  lemma AlignGap(x: nat)
    ensures AlignUp(x) - x == if x % ALIGN == 0 then 0 else ALIGN - x % ALIGN
  {
    AlignUpValue(x);
    var q, r := x / 8, x % 8;
    assert x == q * 8 + r;
    if r == 0 {
      assert x + 7 == q * 8 + 7;
      ModIs(x + 7, 8, q, 7);
    } else {
      assert x + 7 == (q + 1) * 8 + (r - 1);
      ModIs(x + 7, 8, q + 1, r - 1);
    }
  }

  /** The kernel address and the bus address of the ring are aligned independently. Host and
      device agree on where the ring starts exactly when both addresses are congruent modulo 8. */
  lemma AlignedViewsAgree(vaddr: nat, paddr: nat)
    ensures AlignUp(vaddr) - vaddr == AlignUp(paddr) - paddr <==> vaddr % ALIGN == paddr % ALIGN
  {
    AlignGap(vaddr);
    AlignGap(paddr);
  }

  /** They can disagree: with addresses 16 and 20 the host starts the ring at the allocation, the
      device 4 bytes into it. */
  lemma AlignedViewsDiffer()
    ensures AlignUp(16) - 16 == 0 && AlignUp(20) - 20 == 4
  {
    hide AlignUp;
    AlignGap(16);
    AlignGap(20);
  }
}
