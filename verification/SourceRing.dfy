/** Host-to-device ring. The host grants itself entries from a stale copy of the device's tail
    pointer, fills them, and publishes its head pointer only in AccessEnd, while the device
    consumes at any moment in between. */
module SourceRing {
  import opened Common
  import opened Bits
  import opened RingMath

  /** The ring's concrete state: host fields of hal_srng, the two shared pointer cells and the
      descriptor memory. All pointers are word offsets. */
  datatype Src = Src(
    n: nat, e: nat,
    hp: nat, cachedTp: nat, reapHp: nat,   // host private
    tpCell: nat,                           // written by the device
    hpReg: nat,                            // published by the host
    mem: seq<nat>)

  /** Unbounded positions behind the wrapped pointers, and the entries as published. */
  datatype Hist = Hist(fetched: nat, cached: nat, published: nat, granted: nat,
                       direct: bool, log: seq<seq<nat>>)

  datatype Sys = Sys(r: Src, h: Hist)

  datatype Event =
    | Begin                              // access_begin
    | Sync                               // src_num_free with sync_hw_ptr
    | Get                                // src_get_next_entry
    | Reap                               // src_get_next_reaped
    | Store(k: nat, j: nat, v: nat)      // host writes word j of its unpublished entry k
    | End                                // access_end
    | Fetch                              // the device consumes one published entry

  predicate ValidShape(n: nat, e: nat) {
    n >= 1 && e >= 1 && e * n < 0x10_0000
  }

  // ---- what the driver computes -----------------------------------------------------

  function Setup(n: nat, e: nat): Src
    requires ValidShape(n, e)
  {
    Src(n, e, 0, 0, Sub32(e * n, e), 0, 0, seq(e * n, _ => 0))
  }

  /** src_num_free on u32 operands, against the tail value it is given. */
  function NumFree(r: Src, tp: nat): nat
    requires r.e >= 1
  {
    if tp > r.hp then Sub32(Sub32(tp, r.hp) / r.e, 1)
    else Sub32(Add32(Sub32(r.e * r.n, r.hp), tp) / r.e, 1)
  }

  predicate GetSucceeds(r: Src)
    requires r.e * r.n >= 1
  {
    (r.hp + r.e) % (r.e * r.n) != r.cachedTp
  }

  function GetNext(r: Src): Src
    requires r.e * r.n >= 1
  {
    var next := (r.hp + r.e) % (r.e * r.n);
    if next == r.cachedTp then r else r.(hp := next, reapHp := next)
  }

  function GetReaped(r: Src): Src
    requires r.e * r.n >= 1
  {
    if r.hp == r.reapHp then r else r.(hp := (r.hp + r.e) % (r.e * r.n))
  }

  function Fetched(r: Src): Src
    requires r.e * r.n >= 1
  {
    if r.tpCell == r.hpReg then r else r.(tpCell := (r.tpCell + r.e) % (r.e * r.n))
  }

  // ---- steps and runs ---------------------------------------------------------------

  function Init(n: nat, e: nat): Sys
    requires ValidShape(n, e)
  {
    Sys(Setup(n, e), Hist(0, 0, 0, 0, false, []))
  }

  predicate Shaped(y: Sys) {
    ValidShape(y.r.n, y.r.e) && |y.r.mem| == y.r.e * y.r.n
  }

  /** The word the host may store to: one of an entry granted and not yet published. */
  predicate MayStore(y: Sys, k: nat, j: nat) {
    y.h.published <= k < y.h.granted && j < y.r.e
  }

  /** The entries of positions lo..hi as they stand in memory. */
  function Entries(r: Src, lo: nat, hi: nat): seq<seq<nat>>
    requires Shaped(Sys(r, Hist(0, 0, 0, 0, false, []))) && lo <= hi
  {
    seq(hi - lo, i requires 0 <= i =>
      OffsetInRing(r.n, r.e, lo + i); Entry(r.mem, r.e, Offset(r.n, r.e, lo + i)))
  }

  function Step(y: Sys, ev: Event): (z: Sys)
    requires Shaped(y)
    ensures Shaped(z) && z.r.n == y.r.n && z.r.e == y.r.e
  {
    match ev
    case Begin => Sys(y.r.(cachedTp := y.r.tpCell), y.h.(cached := y.h.fetched))
    case Sync => Sys(y.r.(cachedTp := y.r.tpCell), y.h.(cached := y.h.fetched))
    case Get =>
      if GetSucceeds(y.r) then Sys(GetNext(y.r), y.h.(granted := y.h.granted + 1, direct := true)) else y
    case Reap =>
      if y.r.hp == y.r.reapHp then y else Sys(GetReaped(y.r), y.h.(granted := y.h.granted + 1))
    case Store(k, j, v) =>
      if MayStore(y, k, j) then
        OffsetInRing(y.r.n, y.r.e, k);
        Sys(y.r.(mem := y.r.mem[Offset(y.r.n, y.r.e, k) + j := v]), y.h)
      else y
    case End =>
      Sys(y.r.(hpReg := y.r.hp),
          y.h.(published := y.h.granted,
               log := if y.h.published <= y.h.granted
                      then y.h.log + Entries(y.r, y.h.published, y.h.granted) else y.h.log))
    case Fetch =>
      if y.r.tpCell == y.r.hpReg then y
      else Sys(Fetched(y.r), y.h.(fetched := y.h.fetched + 1))
  }

  function Run(y: Sys, evs: seq<Event>): (z: Sys)
    requires Shaped(y)
    ensures Shaped(z) && z.r.n == y.r.n && z.r.e == y.r.e
    decreases |evs|
  {
    if evs == [] then y else Run(Step(y, evs[0]), evs[1..])
  }

  // ---- the invariant ----------------------------------------------------------------

  /** Every pointer is the slot offset of its position, and the positions are ordered
      cached <= fetched <= published <= granted <= cached + n - 1. */
  ghost predicate Ordered(y: Sys)
    requires Shaped(y)
  {
    var n, e, h := y.r.n, y.r.e, y.h;
    && y.r.hp == Offset(n, e, h.granted)
    && y.r.hpReg == Offset(n, e, h.published)
    && y.r.tpCell == Offset(n, e, h.fetched)
    && y.r.cachedTp == Offset(n, e, h.cached)
    && h.cached <= h.fetched <= h.published <= h.granted <= h.cached + n - 1
  }

  /** Before the first direct grant the reap pointer is the last slot; afterwards it is hp. */
  ghost predicate ReapOk(y: Sys)
    requires Shaped(y)
  {
    if y.h.direct then y.r.reapHp == y.r.hp
    else y.r.reapHp == y.r.e * (y.r.n - 1) && y.h.granted <= y.r.n - 1
  }

  /** Everything the device may read is exactly what was published. */
  ghost predicate Readable(y: Sys)
    requires Shaped(y)
  {
    && |y.h.log| == y.h.published
    && forall k :: y.h.fetched <= k < y.h.published ==> Intact(y, k)
  }

  ghost predicate Intact(y: Sys, k: nat)
    requires Shaped(y) && k < |y.h.log|
  {
    OffsetInRing(y.r.n, y.r.e, k);
    Entry(y.r.mem, y.r.e, Offset(y.r.n, y.r.e, k)) == y.h.log[k]
  }

  ghost predicate Inv(y: Sys) {
    Shaped(y) && Ordered(y) && ReapOk(y) && Readable(y)
  }

  lemma InitInv(n: nat, e: nat)
    requires ValidShape(n, e)
    ensures Inv(Init(n, e))
  {
    var y := Init(n, e);
    ModSmall(0, n);
    assert Offset(n, e, 0) == 0;
    ScaleOrder(e, 0, n);
    assert e * (n - 1) == e * n - e;
    assert y.r.reapHp == e * (n - 1);
  }

  /** src_get_next_entry refuses exactly when the ring holds n - 1 entries as far as the
      cached tail tells. */
  lemma GetExact(y: Sys)
    requires Inv(y)
    ensures GetSucceeds(y.r) <==> y.h.granted < y.h.cached + y.r.n - 1
    ensures (y.r.hp + y.r.e) % (y.r.e * y.r.n) == Offset(y.r.n, y.r.e, y.h.granted + 1)
  {
    var n, e := y.r.n, y.r.e;
    NextOffset(n, e, y.h.granted);
    ModWindow(y.h.cached, y.h.granted + 1, n);
    ScaleOrder(e, y.h.cached % n, (y.h.granted + 1) % n);
  }

  /** The reaped getter refuses exactly when hp has reached the reap pointer. */
  lemma ReapExact(y: Sys)
    requires Inv(y)
    ensures y.r.hp == y.r.reapHp <==> y.h.direct || y.h.granted == y.r.n - 1
  {
    var n := y.r.n;
    if !y.h.direct {
      ModSmall(y.h.granted, n);
      ScaleOrder(y.r.e, y.h.granted, n - 1);
    }
  }

  /** src_num_free's two branches on slot numbers: the slots from g up to, but not
      including, t, less the one kept empty. */
  lemma NumFreeSlots(r: Src, g: nat, t: nat)
    requires ValidShape(r.n, r.e) && g < r.n && t < r.n && r.hp == r.e * g
    ensures NumFree(r, r.e * t) == (if t > g then t - g - 1 else r.n - g + t - 1)
  {
    var n, e := r.n, r.e;
    ScaleOrder(e, g, t);
    ScaleOrder(e, g, n);
    ScaleOrder(e, t, n);
    if t > g {
      MulSub(e, t, g);
      NumFreeWords(r, e * n, e * t, t - g);
    } else {
      MulSub(e, n, g);
      MulAdd(e, n - g, t);
      NumFreeWords(r, e * n, e * t, n - g + t);
    }
  }

  /** The same on words: x entries lie between the head and the tail. */
  lemma NumFreeWords(r: Src, size: nat, tp: nat, x: nat)
    requires r.e >= 1 && size == r.e * r.n < 0x10_0000 && r.hp <= size && tp < size && x >= 1
    requires r.e * x == if tp > r.hp then tp - r.hp else size - r.hp + tp
    ensures NumFree(r, tp) == x - 1
  {
    hide Sub32, Add32;
    var words := if tp > r.hp then tp - r.hp else size - r.hp + tp;
    U32Exact(size, r.hp, tp);
    CountExact(words, r.e, x);
  }

  lemma MulAdd(e: nat, a: nat, b: nat)
    ensures e * (a + b) == e * a + e * b
  {
  }

  lemma MulSub(e: nat, a: nat, b: nat)
    requires a >= b
    ensures e * a - e * b == e * (a - b)
  {
  }

  /** Words to entries, less one, on u32. */
  lemma CountExact(words: nat, e: nat, x: nat)
    requires e >= 1 && 1 <= x && words == e * x < 0x20_0000
    ensures words < TWO32 && Sub32(words / e, 1) == x - 1
  {
    DivExact(e, x);
    ScaleOrder(e, 0, x);
    assert x <= e * x by { ScaleOrder(x, 1, e); assert x * e == e * x; }
  }

  /** Below 2^21 the unsigned operations are exact. */
  lemma U32Exact(size: nat, hp: nat, tp: nat)
    requires hp <= size < 0x10_0000 && tp < 0x10_0000
    ensures Add32(Sub32(size, hp), tp) == size - hp + tp
    ensures tp > hp ==> Sub32(tp, hp) == tp - hp
  {
  }

  /** The free count is exact: it is n - 1 less the entries in use, so it lies in 0..n-1, no
      unsigned step wraps, and it is zero exactly when src_get_next_entry returns NULL. */
  lemma NumFreeExact(y: Sys)
    requires Inv(y)
    ensures NumFree(y.r, y.r.cachedTp) == y.r.n - 1 - (y.h.granted - y.h.cached)
    ensures NumFree(y.r, y.r.cachedTp) == 0 <==> !GetSucceeds(y.r)
  {
    GetExact(y);
    ModWindow(y.h.cached, y.h.granted, y.r.n);
    NumFreeSlots(y.r, y.h.granted % y.r.n, y.h.cached % y.r.n);
  }

  lemma StorePreserves(y: Sys, k: nat, j: nat, v: nat)
    requires Inv(y) && MayStore(y, k, j)
    ensures Inv(Step(y, Store(k, j, v)))
  {
    var n, e := y.r.n, y.r.e;
    OffsetInRing(n, e, k);
    var z := Step(y, Store(k, j, v));
    forall i | y.h.fetched <= i < y.h.published
      ensures Intact(z, i)
    {
      SlotsApart(n, e, i, k);
      OffsetInRing(n, e, i);
      assert Intact(y, i);
      assert Entry(z.r.mem, e, Offset(n, e, i)) == Entry(y.r.mem, e, Offset(n, e, i));
    }
  }

  lemma EndPreserves(y: Sys)
    requires Inv(y)
    ensures Inv(Step(y, End))
  {
    var z := Step(y, End);
    forall k | z.h.fetched <= k < z.h.published
      ensures Intact(z, k)
    {
      if k < y.h.published { assert Intact(y, k); }
    }
  }

  lemma FetchPreserves(y: Sys)
    requires Inv(y)
    ensures y.r.tpCell == y.r.hpReg <==> y.h.fetched == y.h.published
    ensures Inv(Step(y, Fetch))
  {
    OffsetsEqual(y.r.n, y.r.e, y.h.fetched, y.h.published);
    NextOffset(y.r.n, y.r.e, y.h.fetched);
    var z := Step(y, Fetch);
    forall k | z.h.fetched <= k < z.h.published
      ensures Intact(z, k)
    {
      assert Intact(y, k);
    }
  }

  lemma GrantPreserves(y: Sys, ev: Event)
    requires Inv(y) && (ev.Get? || ev.Reap? || ev.Begin? || ev.Sync?)
    ensures Inv(Step(y, ev))
  {
    GetExact(y);
    ReapExact(y);
    NextOffset(y.r.n, y.r.e, y.h.granted);
    var z := Step(y, ev);
    forall k | z.h.fetched <= k < z.h.published
      ensures Intact(z, k)
    {
      assert Intact(y, k);
    }
  }

  /** Every host or device step keeps the invariant. */
  lemma StepInv(y: Sys, ev: Event)
    requires Inv(y)
    ensures Inv(Step(y, ev))
  {
    match ev
    case Store(k, j, v) => if MayStore(y, k, j) { StorePreserves(y, k, j, v); }
    case End => EndPreserves(y);
    case Fetch => FetchPreserves(y);
    case _ => GrantPreserves(y, ev);
  }

  lemma {:induction false} RunInv(y: Sys, evs: seq<Event>)
    requires Inv(y)
    ensures Inv(Run(y, evs))
    decreases |evs|
  {
    if evs != [] {
      StepInv(y, evs[0]);
      RunInv(Step(y, evs[0]), evs[1..]);
    }
  }

  // ---- what holds over whole runs ---------------------------------------------------

  lemma {:induction false} HistoryGrows(y: Sys, evs: seq<Event>)
    requires Inv(y)
    ensures Inv(Run(y, evs))
    ensures var z := Run(y, evs);
            && y.h.log <= z.h.log
            && y.h.fetched <= z.h.fetched && y.h.granted <= z.h.granted
            && (y.h.direct ==> z.h.direct)
    decreases |evs|
  {
    if evs != [] {
      StepInv(y, evs[0]);
      HistoryGrows(Step(y, evs[0]), evs[1..]);
    }
  }

  /** Safety of every interleaving from setup: the position chain holds although the host
      consults only a stale tail, what the device may read is what was published and is never
      rewritten before the device has consumed it, at most n - 1 entries are in use, and the free
      count is exact. */
  lemma RunSafe(n: nat, e: nat, evs: seq<Event>, more: seq<Event>)
    requires ValidShape(n, e)
    ensures var y := Run(Init(n, e), evs);
            && y.h.cached <= y.h.fetched <= y.h.published <= y.h.granted <= y.h.cached + n - 1
            && Readable(y)
    ensures var y := Run(Init(n, e), evs);
            var z := Run(y, more);
            && |y.h.log| == y.h.published <= z.h.published == |z.h.log|
            && forall k :: z.h.fetched <= k < y.h.published ==> Intact(z, k) && z.h.log[k] == y.h.log[k]
    ensures var y := Run(Init(n, e), evs);
            var free := NumFree(y.r, y.r.cachedTp);
            free + (y.h.granted - y.h.cached) == n - 1 && (free == 0 <==> !GetSucceeds(y.r))
  {
    InitInv(n, e);
    RunInv(Init(n, e), evs);
    var y := Run(Init(n, e), evs);
    NumFreeExact(y);
    HistoryGrows(y, more);
  }

  /** A store that takes effect never lands in an entry the device has not consumed. */
  lemma StoreMissesUnread(y: Sys, k: nat, j: nat, i: nat)
    requires Inv(y) && MayStore(y, k, j) && y.h.fetched <= i < y.h.published
    ensures var p := Offset(y.r.n, y.r.e, k) + j;
            !(Offset(y.r.n, y.r.e, i) <= p < Offset(y.r.n, y.r.e, i) + y.r.e)
  {
    SlotsApart(y.r.n, y.r.e, i, k);
  }

  function Reaps(m: nat): seq<Event> {
    seq(m, _ => Reap)
  }

  /** get_next_reaped alone, from setup, hands out slots 0, 1, ..., n - 2 and then NULL. */
  lemma {:induction false} ReapedAlone(n: nat, e: nat, m: nat)
    requires ValidShape(n, e)
    ensures var z := Run(Init(n, e), Reaps(m));
            && Inv(z) && z.h == Hist(0, 0, 0, if m < n then m else n - 1, false, [])
            && z.r.hp == e * z.h.granted
            && (z.r.hp == z.r.reapHp <==> m >= n - 1)
    decreases m
  {
    if m == 0 {
      InitInv(n, e);
      ReapExact(Init(n, e));
      ModSmall(0, n);
    } else {
      ReapedAlone(n, e, m - 1);
      var y := Run(Init(n, e), Reaps(m - 1));
      assert Reaps(m) == Reaps(m - 1) + [Reap];
      RunAppend(Init(n, e), Reaps(m - 1), [Reap]);
      StepInv(y, Reap);
      ReapExact(y);
      var z := Step(y, Reap);
      assert Run(y, [Reap]) == z;
      ReapExact(z);
      ModSmall(z.h.granted, n);
    }
  }

  lemma {:induction false} RunAppend(y: Sys, a: seq<Event>, b: seq<Event>)
    requires Shaped(y)
    ensures Run(y, a + b) == Run(Run(y, a), b)
    decreases |a|
  {
    if a == [] {
      assert a + b == b;
    } else {
      assert (a + b)[1..] == a[1..] + b;
      RunAppend(Step(y, a[0]), a[1..], b);
    }
  }

  /** Once src_get_next_entry has granted an entry, in every continuation reap_hp equals hp
      and the reaped getter yields nothing. */
  lemma DirectDisablesReap(n: nat, e: nat, evs: seq<Event>, more: seq<Event>)
    requires ValidShape(n, e)
    requires Run(Init(n, e), evs).h.direct
    ensures var z := Run(Run(Init(n, e), evs), more);
            z.r.reapHp == z.r.hp && Step(z, Reap) == z
  {
    InitInv(n, e);
    RunInv(Init(n, e), evs);
    HistoryGrows(Run(Init(n, e), evs), more);
  }

  /** Storing a word of the one unpublished entry. */
  lemma StoreEffect(y: Sys, j: nat, v: nat)
    requires Inv(y) && y.h.published + 1 == y.h.granted && j < y.r.e
    ensures var z := Step(y, Store(y.h.granted - 1, j, v));
            && Inv(z) && z.h == y.h && z.r.n == y.r.n && z.r.e == y.r.e
            && var p := Offset(y.r.n, y.r.e, y.h.granted - 1) + j;
            && p < |y.r.mem| && z.r.mem == y.r.mem[p := v]
  {
    OffsetInRing(y.r.n, y.r.e, y.h.granted - 1);
    StepInv(y, Store(y.h.granted - 1, j, v));
  }

  /** Publishing the one unpublished entry. */
  lemma EndEffect(y: Sys)
    requires Inv(y) && y.h.published + 1 == y.h.granted
    ensures var z := Step(y, End);
            && Inv(z) && z.r == y.r.(hpReg := y.r.hp)
            && z.h == y.h.(published := y.h.granted, log := z.h.log)
            && (OffsetInRing(y.r.n, y.r.e, y.h.published);
                z.h.log == y.h.log + [Entry(y.r.mem, y.r.e, Offset(y.r.n, y.r.e, y.h.published))])
  {
    StepInv(y, End);
  }

  // ---- the ring as the driver holds it ----------------------------------------------

  class SrcRing {
    const n: nat
    const e: nat
    const mem: array<nat>
    var hp: nat
    var cachedTp: nat
    var reapHp: nat
    var tpCell: nat
    var hpReg: nat
    ghost var h: Hist

    ghost function State(): Sys
      reads this, mem
    {
      Sys(Src(n, e, hp, cachedTp, reapHp, tpCell, hpReg, mem[..]), h)
    }

    ghost predicate Valid()
      reads this, mem
    {
      Inv(State())
    }

    /** wireless_simu_hal_srng_setup for a source ring. */
    constructor (entries: nat, words: nat)
      requires ValidShape(entries, words)
      ensures Valid() && fresh(mem) && State() == Init(entries, words)
    {
      n, e := entries, words;
      hp, cachedTp, tpCell, hpReg := 0, 0, 0, 0;
      reapHp := Sub32(words * entries, words);
      mem := new nat[words * entries](_ => 0);
      h := Hist(0, 0, 0, 0, false, []);
      new;
      assert mem[..] == Setup(entries, words).mem;
      InitInv(entries, words);
    }

    method AccessBegin()
      requires Valid()
      modifies this
      ensures Valid() && State() == Step(old(State()), Begin)
      ensures cachedTp == tpCell == old(tpCell) && h.cached == h.fetched == old(h.fetched)
    {
      StepInv(State(), Begin);
      cachedTp := tpCell;
      h := h.(cached := h.fetched);
    }

    method SrcNumFree(sync: bool) returns (free: nat)
      requires Valid()
      modifies this
      ensures Valid() && State() == (if sync then Step(old(State()), Sync) else old(State()))
      ensures sync ==> h.cached == h.fetched == old(h.fetched)
      ensures free == n - 1 - (h.granted - h.cached)
      ensures free == 0 <==> !GetSucceeds(State().r)
    {
      var tp;
      if sync {
        StepInv(State(), Sync);
        tp := tpCell;
        cachedTp := tp;
        h := h.(cached := h.fetched);
      } else {
        tp := cachedTp;
      }
      free := FreeFrom(tp);
      NumFreeExact(State());
    }

    /** The two branches of src_num_free once the tail is known. */
    method FreeFrom(tp: nat) returns (free: nat)
      requires e >= 1
      ensures free == NumFree(State().r, tp)
    {
      if tp > hp {
        free := Sub32(Sub32(tp, hp) / e, 1);
      } else {
        free := Sub32(Add32(Sub32(e * n, hp), tp) / e, 1);
      }
    }

    method GetNextEntry() returns (desc: Option<nat>)
      requires Valid()
      modifies this
      ensures Valid() && State() == Step(old(State()), Get)
      ensures desc.Some? <==> GetSucceeds(old(State()).r)
      ensures desc.Some? ==> desc.value == Offset(n, e, old(h.granted)) && desc.value + e <= mem.Length
      ensures desc.Some? ==> h.granted == old(h.granted) + 1
    {
      ghost var y := State();
      StepInv(y, Get);
      OffsetInRing(n, e, h.granted);
      var next := (hp + e) % (e * n);
      if next == cachedTp {
        return None;
      }
      desc := Some(hp);
      hp := next;
      reapHp := next;
      h := h.(granted := h.granted + 1, direct := true);
    }

    method GetNextReaped() returns (desc: Option<nat>)
      requires Valid()
      modifies this
      ensures Valid() && State() == Step(old(State()), Reap)
      ensures desc.None? <==> old(h.direct) || old(h.granted) == n - 1
      ensures desc.Some? ==> desc.value == Offset(n, e, old(h.granted)) && desc.value + e <= mem.Length
    {
      ghost var y := State();
      StepInv(y, Reap);
      ReapExact(y);
      OffsetInRing(n, e, h.granted);
      if hp == reapHp {
        return None;
      }
      desc := Some(hp);
      hp := (hp + e) % (e * n);
      h := h.(granted := h.granted + 1);
    }

    /** A store through a descriptor pointer returned for position k. */
    method StoreWord(ghost k: nat, p: nat, j: nat, v: nat)
      requires Valid() && MayStore(State(), k, j) && p == Offset(n, e, k)
      modifies mem
      ensures Valid() && State() == Step(old(State()), Store(k, j, v))
    {
      OffsetInRing(n, e, k);
      StepInv(State(), Store(k, j, v));
      mem[p + j] := v;
    }

    method AccessEnd()
      requires Valid()
      modifies this
      ensures Valid() && State() == Step(old(State()), End)
      ensures hpReg == hp == old(hp) && h.published == h.granted == old(h.granted)
    {
      ghost var z := Step(State(), End);
      StepInv(State(), End);
      hpReg := hp;
      h := z.h;
    }

    /** The device's side: consume one published entry, if there is one. */
    method DeviceFetch()
      requires Valid()
      modifies this
      ensures Valid() && State() == Step(old(State()), Fetch)
    {
      FetchPreserves(State());
      if tpCell != hpReg {
        tpCell := (tpCell + e) % (e * n);
        h := h.(fetched := h.fetched + 1);
      }
    }
  }
}
