/** Device-to-host ring. The device writes an entry and then advances its head cell; the host
    works from a cached head and publishes its tail only in AccessEnd. */
module DestRing {
  import opened Common
  import opened Bits
  import opened RingMath
  import opened SourceRing

  datatype Dst = Dst(
    n: nat, e: nat,
    tp: nat, cachedHp: nat,   // host private
    hpCell: nat,              // written by the device
    tpReg: nat,               // published by the host
    mem: seq<nat>)

  /** Positions behind the pointers, and every entry the device has produced. */
  datatype DstHist = DstHist(consumed: nat, cached: nat, released: nat, log: seq<seq<nat>>)

  datatype DstSys = DstSys(r: Dst, h: DstHist)

  datatype DstEvent =
    | DBegin                        // access_begin
    | DGet                          // dst_get_next_entry
    | DEnd                          // access_end
    | Produce(entry: seq<nat>)      // the device reports one entry

  predicate DstShaped(y: DstSys) {
    ValidShape(y.r.n, y.r.e) && |y.r.mem| == y.r.e * y.r.n && y.r.hpCell + y.r.e <= y.r.e * y.r.n
  }

  function DstInit(n: nat, e: nat): (y: DstSys)
    requires ValidShape(n, e)
  {
    DstSys(Dst(n, e, 0, 0, 0, 0, seq(e * n, _ => 0)), DstHist(0, 0, 0, []))
  }

  /** The tail after dst_get_next_entry, which wraps by an equality test. */
  function WrapByTest(p: nat, e: nat, size: nat): nat {
    if p + e == size then 0 else p + e
  }

  function DstStep(y: DstSys, ev: DstEvent): DstSys
    requires DstShaped(y)
  {
    var size := y.r.e * y.r.n;
    match ev
    case DBegin => DstSys(y.r.(cachedHp := y.r.hpCell), y.h.(cached := |y.h.log|))
    case DGet =>
      if y.r.tp == y.r.cachedHp then y
      else DstSys(y.r.(tp := WrapByTest(y.r.tp, y.r.e, size)), y.h.(consumed := y.h.consumed + 1))
    case DEnd => DstSys(y.r.(tpReg := y.r.tp), y.h.(released := y.h.consumed))
    case Produce(entry) =>
      if |entry| == y.r.e then
        DstSys(y.r.(mem := Overwrite(y.r.mem, y.r.hpCell, entry), hpCell := (y.r.hpCell + y.r.e) % size),
               y.h.(log := y.h.log + [entry]))
      else y
  }

  ghost predicate DstOrdered(y: DstSys)
    requires DstShaped(y)
  {
    var n, e, h := y.r.n, y.r.e, y.h;
    && y.r.tp == Offset(n, e, h.consumed)
    && y.r.cachedHp == Offset(n, e, h.cached)
    && y.r.hpCell == Offset(n, e, |h.log|)
    && y.r.tpReg == Offset(n, e, h.released)
    && h.released <= h.consumed <= h.cached <= |h.log| < h.consumed + n
  }

  /** The last n produced entries are still in memory. */
  ghost predicate Recent(y: DstSys)
    requires DstShaped(y)
  {
    forall k: nat :: k < |y.h.log| <= k + y.r.n ==> Stored(y, k)
  }

  ghost predicate Stored(y: DstSys, k: nat)
    requires DstShaped(y) && k < |y.h.log|
  {
    OffsetInRing(y.r.n, y.r.e, k);
    Entry(y.r.mem, y.r.e, Offset(y.r.n, y.r.e, k)) == y.h.log[k]
  }

  ghost predicate DstInv(y: DstSys) {
    DstShaped(y) && DstOrdered(y) && Recent(y)
  }

  /** The device may report one more entry without the ring becoming full. */
  predicate Room(y: DstSys) {
    |y.h.log| + 1 < y.h.consumed + y.r.n
  }

  lemma DstInitInv(n: nat, e: nat)
    requires ValidShape(n, e)
    ensures DstInv(DstInit(n, e))
  {
    ModSmall(0, n);
    assert Offset(n, e, 0) == 0;
    OffsetInRing(n, e, 0);
  }

  /** An equal tail and cached head mean that every entry the host knows of is consumed, and
      the equality-test wrap is the modular step. */
  lemma DstGetExact(y: DstSys)
    requires DstInv(y)
    ensures y.r.tp == y.r.cachedHp <==> y.h.consumed == y.h.cached
    ensures WrapByTest(y.r.tp, y.r.e, y.r.e * y.r.n) == (y.r.tp + y.r.e) % (y.r.e * y.r.n)
    ensures WrapByTest(y.r.tp, y.r.e, y.r.e * y.r.n) == Offset(y.r.n, y.r.e, y.h.consumed + 1)
    ensures y.r.tp + y.r.e <= y.r.e * y.r.n
    ensures y.h.consumed < |y.h.log| ==> Stored(y, y.h.consumed)
  {
    OffsetsEqual(y.r.n, y.r.e, y.h.consumed, y.h.cached);
    NextOffset(y.r.n, y.r.e, y.h.consumed);
    OffsetInRing(y.r.n, y.r.e, y.h.consumed);
  }

  lemma ProducePreserves(y: DstSys, entry: seq<nat>)
    requires DstInv(y) && Room(y) && |entry| == y.r.e
    ensures DstInv(DstStep(y, Produce(entry)))
  {
    var n, e, c := y.r.n, y.r.e, |y.h.log|;
    var z := DstStep(y, Produce(entry));
    NextOffset(n, e, c);
    OffsetInRing(n, e, c + 1);
    OffsetInRing(n, e, c);
    forall k: nat | k < c + 1 <= k + n
      ensures Stored(z, k)
    {
      OffsetInRing(n, e, k);
      if k < c {
        SlotsApart(n, e, k, c);
        assert Stored(y, k);
      }
      OverwriteSlice(y.r.mem, y.r.hpCell, entry, Offset(n, e, k), e);
    }
  }

  lemma DstStepInv(y: DstSys, ev: DstEvent)
    requires DstInv(y) && (ev.Produce? ==> Room(y))
    ensures DstInv(DstStep(y, ev))
  {
    match ev
    case Produce(entry) => if |entry| == y.r.e { ProducePreserves(y, entry); }
    case _ =>
      DstGetExact(y);
      var z := DstStep(y, ev);
      forall k: nat | k < |z.h.log| <= k + z.r.n
        ensures Stored(z, k)
      {
        assert Stored(y, k);
      }
  }

  class DstRing {
    const n: nat
    const e: nat
    const mem: array<nat>
    var tp: nat
    var cachedHp: nat
    var hpCell: nat
    var tpReg: nat
    ghost var h: DstHist

    ghost function State(): DstSys
      reads this, mem
    {
      DstSys(Dst(n, e, tp, cachedHp, hpCell, tpReg, mem[..]), h)
    }

    ghost predicate Valid()
      reads this, mem
    {
      DstInv(State())
    }

    /** wireless_simu_hal_srng_setup for a destination ring. */
    constructor (entries: nat, words: nat)
      requires ValidShape(entries, words)
      ensures Valid() && fresh(mem) && State() == DstInit(entries, words)
    {
      n, e := entries, words;
      tp, cachedHp, hpCell, tpReg := 0, 0, 0, 0;
      mem := new nat[words * entries](_ => 0);
      h := DstHist(0, 0, 0, []);
      new;
      assert mem[..] == DstInit(entries, words).r.mem;
      DstInitInv(entries, words);
    }

    method AccessBegin()
      requires Valid()
      modifies this
      ensures Valid() && State() == DstStep(old(State()), DBegin)
      ensures cachedHp == hpCell == old(hpCell) && h.cached == |h.log| == |old(h.log)|
    {
      DstStepInv(State(), DBegin);
      cachedHp := hpCell;
      h := h.(cached := |h.log|);
    }

    method GetNextEntry() returns (desc: Option<nat>)
      requires Valid()
      modifies this
      ensures Valid() && State() == DstStep(old(State()), DGet)
      ensures desc.None? <==> old(h.consumed) == old(h.cached)
      ensures desc.None? <==> old(tp) == old(cachedHp)
      ensures desc.Some? ==> desc.value == old(tp) == Offset(n, e, old(h.consumed)) && desc.value + e <= mem.Length
    {
      DstStepInv(State(), DGet);
      DstGetExact(State());
      if tp == cachedHp {
        return None;
      }
      desc := Some(tp);
      tp := tp + e;
      if tp == e * n {
        tp := 0;
      }
      h := h.(consumed := h.consumed + 1);
    }

    method AccessEnd()
      requires Valid()
      modifies this
      ensures Valid() && State() == DstStep(old(State()), DEnd)
      ensures tpReg == tp == old(tp) && h.released == h.consumed == old(h.consumed)
    {
      DstStepInv(State(), DEnd);
      tpReg := tp;
      h := h.(released := h.consumed);
    }

    /** The device writes one status entry and advances its head cell. */
    method DeviceProduce(entry: seq<nat>)
      requires Valid() && Room(State()) && |entry| == e
      modifies this, mem
      ensures Valid() && State() == DstStep(old(State()), Produce(entry))
    {
      ghost var y := State();
      DstStepInv(y, Produce(entry));
      forall j | 0 <= j < |entry| {
        mem[hpCell + j] := entry[j];
      }
      OverwriteIs(y.r.mem, hpCell, entry, mem[..]);
      hpCell := (hpCell + e) % (e * n);
      h := h.(log := h.log + [entry]);
    }
  }
}
