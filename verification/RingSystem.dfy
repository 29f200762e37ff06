/** All rings at once, on the tables they share: the ring list, the cells the device writes, the
    cells and registers the host writes. Every event reads and writes those tables where the code
    does; the theorems say that each ring nevertheless lives as if it were alone. */
module RingSystem {
  import opened Common
  import opened Bits
  import opened RingMath
  import opened Descriptors
  import opened RingTable
  import S = SourceRing
  import D = DestRing

  /** The direction-dependent part of hal_srng, with the ring's history. */
  datatype Dir =
    | Source(hp: nat, cachedTp: nat, reapHp: nat, sh: S.Hist)
    | Dest(tp: nat, cachedHp: nat, dh: D.DstHist)

  /** hal_srng: configuration, bus address, entries, descriptor memory, host pointers. */
  datatype Srng = Srng(c: Config, base: nat, n: nat, mem: seq<nat>, dir: Dir)

  datatype Shared = Shared(
    srngs: seq<Option<Srng>>,
    rdp: seq<nat>,              // written by the device, one cell a ring
    wrp: seq<nat>,              // written by the host for LMAC rings
    regs: map<nat, nat>)        // written by the host for the others

  /** What happens to one ring: a step of the host, or of the device. */
  datatype RingEvent = OnSource(s: S.Event) | OnDest(d: D.DstEvent)

  datatype Event =
    | Setup(c: Config, num: nat, mac: nat, base: nat, n: nat, o: Opts)
    | On(id: nat, ev: RingEvent)

  predicate Formed(id: nat, s: Srng) {
    && S.ValidShape(s.n, s.c.entryWords) && |s.mem| == s.c.entryWords * s.n
    && (s.c.lmac <==> id >= LMAC1_ID_START) && (s.c.dst <==> s.dir.Dest?)
  }

  predicate Sized(t: Shared) {
    && |t.srngs| == RING_ID_MAX && |t.rdp| == RING_ID_MAX && |t.wrp| == NUM_LMAC_RINGS
    && forall i :: 0 <= i < RING_ID_MAX && t.srngs[i].Some? ==> Formed(i, t.srngs[i].value)
  }

  // ---- one ring's share of the tables -----------------------------------------------

  /** The pointer the host has published for a ring. */
  function Published(wrp: seq<nat>, regs: map<nat, nat>, id: nat): nat
    requires |wrp| == NUM_LMAC_RINGS && id < RING_ID_MAX
  {
    if id >= LMAC1_ID_START then wrp[id - LMAC1_ID_START]
    else if Reg(id, 1, 0) in regs then regs[Reg(id, 1, 0)] else 0
  }

  datatype View = Absent | SourceView(s: S.Sys) | DestView(d: D.DstSys)

  function ViewOf(ring: Option<Srng>, rdp: nat, published: nat): View {
    match ring
    case None => Absent
    case Some(Srng(c, _, n, mem, Source(hp, cachedTp, reapHp, h))) =>
      SourceView(S.Sys(S.Src(n, c.entryWords, hp, cachedTp, reapHp, rdp, published, mem), h))
    case Some(Srng(c, _, n, mem, Dest(tp, cachedHp, h))) =>
      DestView(D.DstSys(D.Dst(n, c.entryWords, tp, cachedHp, rdp, published, mem), h))
  }

  /** The ring as SourceRing or DestRing knows it, read off the shared tables. */
  function ViewAt(t: Shared, id: nat): View
    requires Sized(t) && id < RING_ID_MAX
  {
    ViewOf(t.srngs[id], t.rdp[id], Published(t.wrp, t.regs, id))
  }

  // ---- events on the tables ---------------------------------------------------------

  function Put(t: Shared, id: nat, s: Srng): Shared
    requires id < |t.srngs|
  {
    t.(srngs := t.srngs[id := Some(s)])
  }

  /** access_end's write: shared memory for an LMAC ring, the pointer register otherwise. */
  function Publish(t: Shared, id: nat, lmac: bool, p: nat): Shared
    requires lmac ==> LMAC1_ID_START <= id < LMAC1_ID_START + |t.wrp|
  {
    if lmac then t.(wrp := t.wrp[id - LMAC1_ID_START := p])
    else t.(regs := t.regs[Reg(id, 1, 0) := p])
  }

  /** Word j of position k's entry written. */
  function StoreAt(mem: seq<nat>, n: nat, e: nat, k: nat, j: nat, v: nat): (m: seq<nat>)
    requires S.ValidShape(n, e) && |mem| == e * n && j < e
    ensures |m| == |mem|
  {
    OffsetInRing(n, e, k);
    mem[Offset(n, e, k) + j := v]
  }

  /** The ring's history after the event, as SourceRing keeps it. */
  function SourceHist(t: Shared, id: nat, ev: S.Event): S.Hist
    requires Sized(t) && id < RING_ID_MAX && t.srngs[id].Some? && t.srngs[id].value.dir.Source?
  {
    assert Formed(id, t.srngs[id].value);
    S.Step(ViewAt(t, id).s, ev).h
  }

  function SourceEvent(t: Shared, id: nat, s: Srng, ev: S.Event): Shared
    requires Sized(t) && id < RING_ID_MAX && t.srngs[id] == Some(s) && s.dir.Source?
  {
    var d, e, size, h := s.dir, s.c.entryWords, s.c.entryWords * s.n, SourceHist(t, id, ev);
    match ev
    case Begin => Put(t, id, s.(dir := d.(cachedTp := t.rdp[id], sh := h)))
    case Sync => Put(t, id, s.(dir := d.(cachedTp := t.rdp[id], sh := h)))
    case Get =>
      var next := (d.hp + e) % size;
      if next == d.cachedTp then t else Put(t, id, s.(dir := Source(next, d.cachedTp, next, h)))
    case Reap =>
      if d.hp == d.reapHp then t else Put(t, id, s.(dir := d.(hp := (d.hp + e) % size, sh := h)))
    case Store(k, j, v) =>
      if S.MayStore(ViewAt(t, id).s, k, j) then Put(t, id, s.(mem := StoreAt(s.mem, s.n, e, k, j, v))) else t
    case End => Publish(Put(t, id, s.(dir := d.(sh := h))), id, s.c.lmac, d.hp)
    case Fetch =>
      if t.rdp[id] == Published(t.wrp, t.regs, id) then t
      else Put(t, id, s.(dir := d.(sh := h))).(rdp := t.rdp[id := (t.rdp[id] + e) % size])
  }

  function DestEvent(t: Shared, id: nat, s: Srng, ev: D.DstEvent): Shared
    requires Sized(t) && id < RING_ID_MAX && t.srngs[id] == Some(s) && s.dir.Dest?
    requires D.DstShaped(ViewAt(t, id).d)
  {
    var d, e, size := s.dir, s.c.entryWords, s.c.entryWords * s.n;
    var h := D.DstStep(ViewAt(t, id).d, ev).h;
    match ev
    case DBegin => Put(t, id, s.(dir := d.(cachedHp := t.rdp[id], dh := h)))
    case DGet =>
      if d.tp == d.cachedHp then t
      else Put(t, id, s.(dir := d.(tp := D.WrapByTest(d.tp, e, size), dh := h)))
    case DEnd => Publish(Put(t, id, s.(dir := d.(dh := h))), id, s.c.lmac, d.tp)
    case Produce(entry) =>
      if |entry| == e then
        Put(t, id, s.(mem := Overwrite(s.mem, t.rdp[id], entry), dir := d.(dh := h)))
          .(rdp := t.rdp[id := (t.rdp[id] + e) % size])
      else t
  }

  /** A ring as wireless_simu_hal_srng_setup leaves it, its descriptor memory cleared. */
  function NewRing(c: Config, base: nat, n: nat): Srng
    requires S.ValidShape(n, c.entryWords)
  {
    var e := c.entryWords;
    Srng(c, base, n, seq(e * n, _ => 0),
         if c.dst then Dest(0, 0, D.DstHist(0, 0, 0, []))
         else Source(0, 0, Sub32(e * n, e), S.Hist(0, 0, 0, 0, false, [])))
  }

  /** What setup does once the ring has its id. Only for a ring that is no LMAC ring does hw_init
      clear the cell and write the registers. */
  function Install(t: Shared, L: Layout, rdpBus: nat, id: nat, c: Config, base: nat, n: nat, o: Opts): Shared
    requires ValidLayout(L) && S.ValidShape(n, c.entryWords) && id < |t.srngs| && id < |t.rdp|
  {
    var u := Put(t, id, NewRing(c, base, n));
    if c.lmac then u
    else u.(rdp := t.rdp[id := 0], regs := WriteAll(t.regs, id, InitWrites(L, c, base, n, id, rdpBus, o)))
  }

  // ---- what one event does to the views ---------------------------------------------

  ghost predicate Safe(v: View) {
    match v
    case Absent => true
    case SourceView(s) => S.Inv(s)
    case DestView(d) => D.DstInv(d)
  }

  ghost predicate AllSafe(t: Shared)
    requires Sized(t)
  {
    forall id: nat :: id < RING_ID_MAX ==> Safe(ViewAt(t, id))
  }

  /** The event as the ring alone would take it. */
  function Alone(v: View, ev: RingEvent): View {
    match (v, ev)
    case (SourceView(s), OnSource(e)) => if S.Shaped(s) then SourceView(S.Step(s, e)) else v
    case (DestView(d), OnDest(e)) => if D.DstShaped(d) then DestView(D.DstStep(d, e)) else v
    case _ => v
  }

  ghost function OnRing(t: Shared, id: nat, ev: RingEvent): Shared
    requires Sized(t) && id < RING_ID_MAX && t.srngs[id].Some? && Safe(ViewAt(t, id))
    requires ev.OnDest? <==> t.srngs[id].value.dir.Dest?
  {
    match ev
    case OnSource(e) => SourceEvent(t, id, t.srngs[id].value, e)
    case OnDest(e) => DestEvent(t, id, t.srngs[id].value, e)
  }

  /** Nothing but ring id's entries of the tables differs. */
  ghost predicate OnlyTouches(t: Shared, u: Shared, id: nat)
    requires Sized(t) && id < RING_ID_MAX
  {
    && Sized(u)
    && forall i: nat :: i < RING_ID_MAX && i != id ==> Untouched(t, u, i)
  }

  ghost predicate Untouched(t: Shared, u: Shared, i: nat)
    requires Sized(t) && Sized(u) && i < RING_ID_MAX
  {
    && t.srngs[i] == u.srngs[i] && t.rdp[i] == u.rdp[i] && RegsOf(t.regs, i) == RegsOf(u.regs, i)
    && Published(t.wrp, t.regs, i) == Published(u.wrp, u.regs, i)
  }

  lemma OtherRegister(regs: map<nat, nat>, id: nat, p: nat, i: nat)
    requires id < RING_ID_MAX && i < RING_ID_MAX && i != id
    ensures var m := regs[Reg(id, 1, 0) := p];
            && RegsOf(m, i) == RegsOf(regs, i)
            && (Reg(i, 1, 0) in m <==> Reg(i, 1, 0) in regs)
            && (Reg(i, 1, 0) in m ==> m[Reg(i, 1, 0)] == regs[Reg(i, 1, 0)])
  {
    RegistersApart(id, 1, 0, i, 1, 0);
  }

  lemma PublishTouches(t: Shared, id: nat, lmac: bool, p: nat)
    requires Sized(t) && id < RING_ID_MAX && (lmac <==> id >= LMAC1_ID_START)
    ensures OnlyTouches(t, Publish(t, id, lmac, p), id)
    ensures var u := Publish(t, id, lmac, p); Published(u.wrp, u.regs, id) == p
  {
    var u := Publish(t, id, lmac, p);
    forall i: nat | i < RING_ID_MAX && i != id ensures Untouched(t, u, i) {
      if !lmac { OtherRegister(t.regs, id, p, i); }
    }
  }

  lemma PutTouches(t: Shared, id: nat, s: Srng)
    requires Sized(t) && id < RING_ID_MAX && Formed(id, s)
    ensures var u := Put(t, id, s);
            OnlyTouches(t, u, id) && ViewAt(u, id) == ViewOf(Some(s), t.rdp[id], Published(t.wrp, t.regs, id))
  {
  }

  /** The device's write to its cell of the ring. */
  lemma CellTouches(t: Shared, id: nat, p: nat)
    requires Sized(t) && id < RING_ID_MAX
    ensures var u := t.(rdp := t.rdp[id := p]);
            OnlyTouches(t, u, id) && ViewAt(u, id) == ViewOf(t.srngs[id], p, Published(t.wrp, t.regs, id))
  {
  }

  lemma PublishView(t: Shared, id: nat, lmac: bool, p: nat)
    requires Sized(t) && id < RING_ID_MAX && (lmac <==> id >= LMAC1_ID_START)
    ensures var u := Publish(t, id, lmac, p);
            OnlyTouches(t, u, id) && ViewAt(u, id) == ViewOf(t.srngs[id], t.rdp[id], p)
  {
    PublishTouches(t, id, lmac, p);
  }

  lemma TouchesTwice(t: Shared, u: Shared, w: Shared, id: nat)
    requires Sized(t) && id < RING_ID_MAX && OnlyTouches(t, u, id) && OnlyTouches(u, w, id)
    ensures OnlyTouches(t, w, id)
  {
    forall i: nat | i < RING_ID_MAX && i != id ensures Untouched(t, w, i) {
      assert Untouched(t, u, i) && Untouched(u, w, i);
    }
  }

  lemma TouchesNothing(t: Shared, id: nat)
    requires Sized(t) && id < RING_ID_MAX
    ensures OnlyTouches(t, t, id)
  {
  }

  /** Getters and stores change the ring's own record only. */
  lemma SourcePrivate(t: Shared, id: nat, s: Srng, ev: S.Event)
    requires Sized(t) && id < RING_ID_MAX && t.srngs[id] == Some(s) && s.dir.Source?
    requires !ev.End? && !ev.Fetch?
    ensures var u := SourceEvent(t, id, s, ev);
            OnlyTouches(t, u, id) && ViewAt(u, id) == SourceView(S.Step(ViewAt(t, id).s, ev))
  {
    hide OnlyTouches, Published, Reg, S.MayStore;
    TouchesNothing(t, id);
    var u := SourceEvent(t, id, s, ev);
    if u != t { PutTouches(t, id, u.srngs[id].value); }
  }

  lemma SourceEnd(t: Shared, id: nat, s: Srng)
    requires Sized(t) && id < RING_ID_MAX && t.srngs[id] == Some(s) && s.dir.Source?
    ensures var u := SourceEvent(t, id, s, S.End);
            OnlyTouches(t, u, id) && ViewAt(u, id) == SourceView(S.Step(ViewAt(t, id).s, S.End))
  {
    hide OnlyTouches, Published;
    var r := s.(dir := s.dir.(sh := S.Step(ViewAt(t, id).s, S.End).h));
    PutTouches(t, id, r);
    PublishView(Put(t, id, r), id, s.c.lmac, s.dir.hp);
    TouchesTwice(t, Put(t, id, r), SourceEvent(t, id, s, S.End), id);
  }

  lemma SourceFetch(t: Shared, id: nat, s: Srng)
    requires Sized(t) && id < RING_ID_MAX && t.srngs[id] == Some(s) && s.dir.Source?
    ensures var u := SourceEvent(t, id, s, S.Fetch);
            OnlyTouches(t, u, id) && ViewAt(u, id) == SourceView(S.Step(ViewAt(t, id).s, S.Fetch))
  {
    hide OnlyTouches, Published;
    TouchesNothing(t, id);
    var r := s.(dir := s.dir.(sh := S.Step(ViewAt(t, id).s, S.Fetch).h));
    var w := Put(t, id, r);
    PutTouches(t, id, r);
    CellTouches(w, id, (t.rdp[id] + s.c.entryWords) % (s.c.entryWords * s.n));
    if SourceEvent(t, id, s, S.Fetch) != t { TouchesTwice(t, w, SourceEvent(t, id, s, S.Fetch), id); }
  }

  /** A source ring's event is the ring's own step, and touches no other ring. */
  lemma SourceProjects(t: Shared, id: nat, s: Srng, ev: S.Event)
    requires Sized(t) && id < RING_ID_MAX && t.srngs[id] == Some(s) && s.dir.Source?
    ensures var u := SourceEvent(t, id, s, ev);
            OnlyTouches(t, u, id) && ViewAt(u, id) == SourceView(S.Step(ViewAt(t, id).s, ev))
  {
    match ev
    case End => SourceEnd(t, id, s);
    case Fetch => SourceFetch(t, id, s);
    case _ => SourcePrivate(t, id, s, ev);
  }

  lemma DestPrivate(t: Shared, id: nat, s: Srng, ev: D.DstEvent)
    requires Sized(t) && id < RING_ID_MAX && t.srngs[id] == Some(s) && s.dir.Dest?
    requires D.DstShaped(ViewAt(t, id).d) && (ev.DBegin? || ev.DGet?)
    ensures var u := DestEvent(t, id, s, ev);
            OnlyTouches(t, u, id) && ViewAt(u, id) == DestView(D.DstStep(ViewAt(t, id).d, ev))
  {
    hide OnlyTouches;
    TouchesNothing(t, id);
    var u := DestEvent(t, id, s, ev);
    if u != t { PutTouches(t, id, u.srngs[id].value); }
  }

  lemma DestEnd(t: Shared, id: nat, s: Srng)
    requires Sized(t) && id < RING_ID_MAX && t.srngs[id] == Some(s) && s.dir.Dest?
    requires D.DstShaped(ViewAt(t, id).d)
    ensures var u := DestEvent(t, id, s, D.DEnd);
            OnlyTouches(t, u, id) && ViewAt(u, id) == DestView(D.DstStep(ViewAt(t, id).d, D.DEnd))
  {
    hide OnlyTouches, Published;
    var r := s.(dir := s.dir.(dh := D.DstStep(ViewAt(t, id).d, D.DEnd).h));
    PutTouches(t, id, r);
    PublishView(Put(t, id, r), id, s.c.lmac, s.dir.tp);
    TouchesTwice(t, Put(t, id, r), DestEvent(t, id, s, D.DEnd), id);
  }

  lemma DestProduce(t: Shared, id: nat, s: Srng, entry: seq<nat>)
    requires Sized(t) && id < RING_ID_MAX && t.srngs[id] == Some(s) && s.dir.Dest?
    requires D.DstShaped(ViewAt(t, id).d)
    ensures var u := DestEvent(t, id, s, D.Produce(entry));
            OnlyTouches(t, u, id) && ViewAt(u, id) == DestView(D.DstStep(ViewAt(t, id).d, D.Produce(entry)))
  {
    hide OnlyTouches, Published, Overwrite;
    TouchesNothing(t, id);
    if |entry| == s.c.entryWords {
      var r := s.(mem := Overwrite(s.mem, t.rdp[id], entry),
                  dir := s.dir.(dh := D.DstStep(ViewAt(t, id).d, D.Produce(entry)).h));
      var w := Put(t, id, r);
      PutTouches(t, id, r);
      CellTouches(w, id, (t.rdp[id] + s.c.entryWords) % (s.c.entryWords * s.n));
      TouchesTwice(t, w, DestEvent(t, id, s, D.Produce(entry)), id);
    }
  }

  /** A destination ring's event is the ring's own step, and touches no other ring. */
  lemma DestProjects(t: Shared, id: nat, s: Srng, ev: D.DstEvent)
    requires Sized(t) && id < RING_ID_MAX && t.srngs[id] == Some(s) && s.dir.Dest?
    requires D.DstShaped(ViewAt(t, id).d)
    ensures var u := DestEvent(t, id, s, ev);
            OnlyTouches(t, u, id) && ViewAt(u, id) == DestView(D.DstStep(ViewAt(t, id).d, ev))
  {
    match ev
    case DEnd => DestEnd(t, id, s);
    case Produce(entry) => DestProduce(t, id, s, entry);
    case _ => DestPrivate(t, id, s, ev);
  }

  // ---- setup ------------------------------------------------------------------------

  /** A ring just set up, as SourceRing and DestRing start it. */
  function Fresh(c: Config, n: nat): View
    requires S.ValidShape(n, c.entryWords)
  {
    if c.dst then DestView(D.DstInit(n, c.entryWords)) else SourceView(S.Init(n, c.entryWords))
  }

  /** hw_init's register writes leave the pointer register zero. */
  lemma PointerCleared(L: Layout, rdpBus: nat, regs: map<nat, nat>, id: nat, c: Config, base: nat, n: nat, o: Opts)
    requires ValidLayout(L) && id < RING_ID_MAX
    ensures var m := WriteAll(regs, id, InitWrites(L, c, base, n, id, rdpBus, o));
            Reg(id, 1, 0) in m && m[Reg(id, 1, 0)] == 0
  {
    var ws := InitWrites(L, c, base, n, id, rdpBus, o);
    assert ws[|ws| - 3] == Write(1, 0, 0);
    WriteAllReads(regs, id, ws, |ws| - 3);
  }

  /** What another ring sees of a block of register writes: nothing. */
  lemma PointerKept(regs: map<nat, nat>, id: nat, ws: seq<Write>, i: nat)
    requires id < RING_ID_MAX && i < RING_ID_MAX && i != id && InRange(ws)
    ensures var m := WriteAll(regs, id, ws);
            && RegsOf(m, i) == RegsOf(regs, i)
            && (Reg(i, 1, 0) in m <==> Reg(i, 1, 0) in regs)
            && (Reg(i, 1, 0) in m ==> m[Reg(i, 1, 0)] == regs[Reg(i, 1, 0)])
  {
    var a, m := Reg(i, 1, 0), WriteAll(regs, id, ws);
    WriteAllApart(regs, id, ws, i);
    RegistersApart(i, 1, 0, i, 1, 0);
    assert a in RegsOf(m, i) <==> a in m;
    assert a in RegsOf(regs, i) <==> a in regs;
    if a in m { assert RegsOf(m, i)[a] == m[a] && RegsOf(regs, i)[a] == regs[a]; }
  }

  lemma InstallTouches(t: Shared, L: Layout, rdpBus: nat, id: nat, c: Config, base: nat, n: nat, o: Opts)
    requires ValidLayout(L) && S.ValidShape(n, c.entryWords) && Sized(t) && id < RING_ID_MAX
    requires c.lmac <==> id >= LMAC1_ID_START
    ensures OnlyTouches(t, Install(t, L, rdpBus, id, c, base, n, o), id)
  {
    hide RegsOf, WriteAll, InitWrites, Reg;
    var u := Install(t, L, rdpBus, id, c, base, n, o);
    forall i: nat | i < RING_ID_MAX && i != id ensures Untouched(t, u, i) {
      if !c.lmac { PointerKept(t.regs, id, InitWrites(L, c, base, n, id, rdpBus, o), i); }
    }
  }

  /** A ring that is no LMAC ring starts fresh whatever its cells held; an LMAC ring, for which
      setup returns before hw_init, does so exactly when both its cells were zero. */
  lemma InstallFresh(t: Shared, L: Layout, rdpBus: nat, id: nat, c: Config, base: nat, n: nat, o: Opts)
    requires ValidLayout(L) && S.ValidShape(n, c.entryWords) && Sized(t) && id < RING_ID_MAX
    requires c.lmac <==> id >= LMAC1_ID_START
    ensures var u := Install(t, L, rdpBus, id, c, base, n, o);
            && Sized(u) && u.srngs[id].Some?
            && u.srngs[id].value.c == c && u.srngs[id].value.base == base && u.srngs[id].value.n == n
            && (ViewAt(u, id) == Fresh(c, n) <==> !c.lmac || (t.rdp[id] == 0 && t.wrp[id - LMAC1_ID_START] == 0))
            && (c.lmac ==> u.rdp[id] == t.rdp[id] && u.wrp == t.wrp && u.regs == t.regs)
  {
    InstallTouches(t, L, rdpBus, id, c, base, n, o);
    if !c.lmac { PointerCleared(L, rdpBus, t.regs, id, c, base, n, o); }
  }

  /** Setup leaves in the ring's register window exactly what hw_init writes. */
  lemma InstallRegisters(t: Shared, L: Layout, rdpBus: nat, id: nat, c: Config, base: nat, n: nat, o: Opts, k: nat)
    requires ValidLayout(L) && S.ValidShape(n, c.entryWords) && Sized(t) && id < RING_ID_MAX && !c.lmac
    requires k < |InitWrites(L, c, base, n, id, rdpBus, o)|
    ensures Holds(RegsOf(Install(t, L, rdpBus, id, c, base, n, o).regs, id), id, InitWrites(L, c, base, n, id, rdpBus, o)[k])
  {
    WriteAllReads(t.regs, id, InitWrites(L, c, base, n, id, rdpBus, o), k);
  }

  lemma WrittenIs(t: Shared, L: Layout, rdpBus: nat, id: nat, c: Config, base: nat, n: nat, o: Opts, k: nat, w: Write)
    requires ValidLayout(L) && S.ValidShape(n, c.entryWords) && Sized(t) && id < RING_ID_MAX && !c.lmac
    requires k < |InitWrites(L, c, base, n, id, rdpBus, o)| && InitWrites(L, c, base, n, id, rdpBus, o)[k] == w
    ensures var regs := RegsOf(Install(t, L, rdpBus, id, c, base, n, o).regs, id);
            Reg(id, w.grp, w.reg) in regs && regs[Reg(id, w.grp, w.reg)] == w.val
  {
    hide InitWrites, RegsOf, Reg, Install;
    InstallRegisters(t, L, rdpBus, id, c, base, n, o, k);
  }

  /** Registers 0 and 1 of the first group tell the device where the ring lies and how many words it
      has, each exactly when it fits its field. */
  lemma BaseRegisters(t: Shared, L: Layout, rdpBus: nat, id: nat, c: Config, base: nat, n: nat, o: Opts)
    requires ValidLayout(L) && S.ValidShape(n, c.entryWords) && Sized(t) && id < RING_ID_MAX && !c.lmac
    ensures var w := RegsOf(Install(t, L, rdpBus, id, c, base, n, o).regs, id);
            && Reg(id, 0, 0) in w && Reg(id, 0, 1) in w
            && (DecodeAddr(L, w[Reg(id, 0, 0)], w[Reg(id, 0, 1)]) == base <==> base < Pow2(L.shift + Width(L.addrHi)))
            && (FieldGet(L.ringSize, w[Reg(id, 0, 1)]) == c.entryWords * n
                <==> c.entryWords * n < Pow2(Width(L.ringSize)))
  {
    hide RegsOf, Reg, Install, BaseMsbReg, AddrLow, FieldGet;
    WrittenIs(t, L, rdpBus, id, c, base, n, o, 0, Write(0, 0, AddrLow(L, base)));
    WrittenIs(t, L, rdpBus, id, c, base, n, o, 1, Write(0, 1, BaseMsbReg(L, base, c.entryWords * n)));
    RegisterRoundTrip(L, base, c.entryWords * n, id, c.entryWords);
  }

  /** Register 2 tells it the entry size and, for a destination ring, the ring's id. */
  lemma IdRegister(t: Shared, L: Layout, rdpBus: nat, id: nat, c: Config, base: nat, n: nat, o: Opts)
    requires ValidLayout(L) && S.ValidShape(n, c.entryWords) && Sized(t) && id < RING_ID_MAX && !c.lmac
    ensures var w := RegsOf(Install(t, L, rdpBus, id, c, base, n, o).regs, id);
            && Reg(id, 0, 2) in w
            && (FieldGet(L.entrySize, w[Reg(id, 0, 2)]) == c.entryWords <==> c.entryWords < Pow2(Width(L.entrySize)))
            && (c.dst ==> (FieldGet(L.ringId, w[Reg(id, 0, 2)]) == id <==> id < Pow2(Width(L.ringId))))
  {
    hide RegsOf, Reg, Install, RingIdReg, FieldGet, FieldPrep;
    WrittenIs(t, L, rdpBus, id, c, base, n, o, 2,
              Write(0, 2, if c.dst then RingIdReg(L, id, c.entryWords) else FieldPrep(L.entrySize, c.entryWords)));
    RegisterRoundTrip(L, base, c.entryWords * n, id, c.entryWords);
    FieldGetOwn(L.entrySize, c.entryWords);
    LowSmall(c.entryWords, Width(L.entrySize));
  }

  /** Registers 5 and 6 tell it where its pointer cell is, 4 bytes a ring from the start of the
      cells. The idle-link ring is not told. */
  lemma CellRegisters(t: Shared, L: Layout, rdpBus: nat, id: nat, c: Config, base: nat, n: nat, o: Opts)
    requires ValidLayout(L) && S.ValidShape(n, c.entryWords) && Sized(t) && id < RING_ID_MAX && !c.lmac
    requires c.dst || id != 104
    ensures var w := RegsOf(Install(t, L, rdpBus, id, c, base, n, o).regs, id);
            && Reg(id, 0, 5) in w && Reg(id, 0, 6) in w
            && w[Reg(id, 0, 5)] < Pow2(L.shift)
            && w[Reg(id, 0, 5)] + Shl(w[Reg(id, 0, 6)], L.shift) == rdpBus + 4 * id
  {
    var k := if c.dst then 4 else 5;
    hide RegsOf, Reg, Install;
    WrittenIs(t, L, rdpBus, id, c, base, n, o, k, Write(0, 5, AddrLow(L, rdpBus + 4 * id)));
    WrittenIs(t, L, rdpBus, id, c, base, n, o, k + 1, Write(0, 6, AddrHigh(L, rdpBus + 4 * id)));
    HalvesJoin(L, rdpBus + 4 * id);
    AndLowMask(rdpBus + 4 * id, L.shift);
    LowBound(rdpBus + 4 * id, L.shift);
  }

  /** What the idle-link ring had in those registers it keeps. */
  lemma IdleLinkKeeps(t: Shared, L: Layout, rdpBus: nat, id: nat, c: Config, base: nat, n: nat, o: Opts, reg: nat)
    requires ValidLayout(L) && S.ValidShape(n, c.entryWords) && Sized(t) && !c.lmac && !c.dst && id == 104
    requires (reg == 5 || reg == 6) && Reg(id, 0, reg) in t.regs
    ensures var w := Install(t, L, rdpBus, id, c, base, n, o).regs;
            Reg(id, 0, reg) in w && w[Reg(id, 0, reg)] == t.regs[Reg(id, 0, reg)]
  {
    WriteAllKeeps(t.regs, id, InitWrites(L, c, base, n, id, rdpBus, o), 0, reg);
  }

  lemma {:induction false} LowBound(x: nat, k: nat)
    ensures Low(x, k) < Pow2(k)
    decreases k
  {
    if k > 0 { LowBound(x / 2, k - 1); }
  }

  /** The second group's pointers are cleared; thresholds, low threshold and control bits are the
      words composed for them. */
  lemma PlainRegisters(t: Shared, L: Layout, rdpBus: nat, id: nat, c: Config, base: nat, n: nat, o: Opts)
    requires ValidLayout(L) && S.ValidShape(n, c.entryWords) && Sized(t) && id < RING_ID_MAX && !c.lmac
    ensures var w := RegsOf(Install(t, L, rdpBus, id, c, base, n, o).regs, id);
            && Reg(id, 1, 0) in w && w[Reg(id, 1, 0)] == 0
            && Reg(id, 1, 1) in w && w[Reg(id, 1, 1)] == 0
            && Reg(id, 0, 3) in w && w[Reg(id, 0, 3)] == o.thresholds
            && (!c.dst ==> Reg(id, 0, 4) in w && w[Reg(id, 0, 4)] == o.low)
            && Reg(id, 0, 7) in w && w[Reg(id, 0, 7)] == o.misc
  {
    hide RegsOf, Reg, Install;
    var k := |InitWrites(L, c, base, n, id, rdpBus, o)|;
    WrittenIs(t, L, rdpBus, id, c, base, n, o, 3, Write(0, 3, o.thresholds));
    if !c.dst { WrittenIs(t, L, rdpBus, id, c, base, n, o, 4, Write(0, 4, o.low)); }
    WrittenIs(t, L, rdpBus, id, c, base, n, o, k - 3, Write(1, 0, 0));
    WrittenIs(t, L, rdpBus, id, c, base, n, o, k - 2, Write(1, 1, 0));
    WrittenIs(t, L, rdpBus, id, c, base, n, o, k - 1, Write(0, 7, o.misc));
  }

  // ---- runs -------------------------------------------------------------------------

  /** The board the driver was built for: register layout, ring table, bus address of the cells. */
  datatype Board = Board(fmt: Layout, table: seq<Config>, rdpBus: nat)

  ghost predicate ValidBoard(b: Board) {
    ValidLayout(b.fmt) && WellFormed(b.table)
  }

  /** Cells of rings that were never set up are as they were allocated. */
  ghost predicate Unused(t: Shared)
    requires Sized(t)
  {
    forall i: nat :: i < RING_ID_MAX && t.srngs[i].None? ==>
      t.rdp[i] == 0 && (i >= LMAC1_ID_START ==> t.wrp[i - LMAC1_ID_START] == 0)
  }

  ghost predicate Good(t: Shared) {
    Sized(t) && AllSafe(t) && Unused(t)
  }

  /** A ring of some row is set up, an LMAC ring only once; or an event of the ring's direction
      happens, a report only while there is room. */
  ghost predicate Enabled(b: Board, t: Shared, e: Event)
    requires Sized(t)
  {
    match e
    case Setup(c, num, mac, _, n, _) =>
      && c in b.table && num < c.maxRings && mac < NUM_LMACS && S.ValidShape(n, c.entryWords)
      && var id := GetRingId(c, num, mac);
      (id.Some? && c.lmac ==> 0 <= id.value < RING_ID_MAX && t.srngs[id.value].None?)
    case On(id, ev) =>
      && id < RING_ID_MAX && t.srngs[id].Some? && (ev.OnDest? <==> t.srngs[id].value.dir.Dest?)
      && (ev.OnDest? && ev.d.Produce? ==> D.Room(ViewAt(t, id).d))
  }

  lemma RowId(b: Board, c: Config, num: nat, mac: nat)
    requires ValidBoard(b) && c in b.table && num < c.maxRings && mac < NUM_LMACS
    ensures var r := GetRingId(c, num, mac);
            r.Some? ==> 0 <= r.value < RING_ID_MAX && (c.lmac <==> r.value >= LMAC1_ID_START)
  {
    var i :| 0 <= i < |b.table| && b.table[i] == c;
    AcceptedIff(c, num, mac);
  }

  ghost function Step(b: Board, t: Shared, e: Event): Shared
    requires ValidBoard(b) && Good(t) && Enabled(b, t, e)
  {
    match e
    case Setup(c, num, mac, base, n, o) =>
      (match GetRingId(c, num, mac)
       case None => t
       case Some(id) => RowId(b, c, num, mac); Install(t, b.fmt, b.rdpBus, id, c, base, n, o))
    case On(id, ev) =>
      assert Safe(ViewAt(t, id));
      OnRing(t, id, ev)
  }

  /** The ring an event is about. */
  function Subject(e: Event): Option<int> {
    match e
    case Setup(c, num, mac, _, _, _) => GetRingId(c, num, mac)
    case On(id, _) => Some(id)
  }

  /** Whatever happens to one ring leaves every other ring's view, cells and registers alone. */
  lemma OthersUntouched(b: Board, t: Shared, e: Event)
    requires ValidBoard(b) && Good(t) && Enabled(b, t, e)
    ensures Sized(Step(b, t, e))
    ensures forall i: nat :: i < RING_ID_MAX && Subject(e) != Some(i) ==> Untouched(t, Step(b, t, e), i)
  {
    match e
    case Setup(c, num, mac, base, n, o) =>
      var r := GetRingId(c, num, mac);
      if r.Some? {
        RowId(b, c, num, mac);
        InstallTouches(t, b.fmt, b.rdpBus, r.value, c, base, n, o);
      }
    case On(id, OnSource(s)) =>
      SourceProjects(t, id, t.srngs[id].value, s);
    case On(id, OnDest(d)) =>
      assert Safe(ViewAt(t, id));
      DestProjects(t, id, t.srngs[id].value, d);
  }

  /** The ring it is about takes it as it would alone. */
  lemma OwnStep(b: Board, t: Shared, id: nat, ev: RingEvent)
    requires ValidBoard(b) && Good(t) && Enabled(b, t, On(id, ev))
    ensures var u := Step(b, t, On(id, ev));
            Sized(u) && ViewAt(u, id) == Alone(ViewAt(t, id), ev) && Safe(ViewAt(u, id)) && u.srngs[id].Some?
  {
    assert Safe(ViewAt(t, id));
    match ev
    case OnSource(s) =>
      SourceProjects(t, id, t.srngs[id].value, s);
      S.StepInv(ViewAt(t, id).s, s);
    case OnDest(d) =>
      DestProjects(t, id, t.srngs[id].value, d);
      D.DstStepInv(ViewAt(t, id).d, d);
  }

  lemma FreshSafe(c: Config, n: nat)
    requires S.ValidShape(n, c.entryWords)
    ensures Safe(Fresh(c, n))
  {
    S.InitInv(n, c.entryWords);
    D.DstInitInv(n, c.entryWords);
  }

  lemma SetupFresh(b: Board, t: Shared, e: Event)
    requires ValidBoard(b) && Good(t) && Enabled(b, t, e) && e.Setup? && Subject(e).Some?
    ensures var u, id := Step(b, t, e), Subject(e).value;
            && 0 <= id < RING_ID_MAX && Sized(u) && u.srngs[id] == Some(NewRing(e.c, e.base, e.n))
            && ViewAt(u, id) == Fresh(e.c, e.n) && Safe(ViewAt(u, id))
  {
    RowId(b, e.c, e.num, e.mac);
    InstallFresh(t, b.fmt, b.rdpBus, Subject(e).value, e.c, e.base, e.n, e.o);
    FreshSafe(e.c, e.n);
  }

  /** Every event on any ring keeps every ring safe. */
  lemma StepGood(b: Board, t: Shared, e: Event)
    requires ValidBoard(b) && Good(t) && Enabled(b, t, e)
    ensures Good(Step(b, t, e))
  {
    var u := Step(b, t, e);
    OthersUntouched(b, t, e);
    match e {
      case Setup(_, _, _, _, _, _) => if Subject(e).Some? { SetupFresh(b, t, e); }
      case On(id, ev) => OwnStep(b, t, id, ev);
    }
    forall i: nat | i < RING_ID_MAX
      ensures Safe(ViewAt(u, i))
      ensures u.srngs[i].None? ==> u.rdp[i] == 0 && (i >= LMAC1_ID_START ==> u.wrp[i - LMAC1_ID_START] == 0)
    {
      assert Safe(ViewAt(t, i));
      if Subject(e) != Some(i) { assert Untouched(t, u, i); }
    }
  }

  ghost predicate Legal(b: Board, t: Shared, evs: seq<Event>)
    requires ValidBoard(b) && Good(t)
    decreases |evs|
  {
    evs == [] || (Enabled(b, t, evs[0]) && (StepGood(b, t, evs[0]); Legal(b, Step(b, t, evs[0]), evs[1..])))
  }

  ghost function Run(b: Board, t: Shared, evs: seq<Event>): (u: Shared)
    requires ValidBoard(b) && Good(t) && Legal(b, t, evs)
    ensures Good(u)
    decreases |evs|
  {
    if evs == [] then t
    else StepGood(b, t, evs[0]); Run(b, Step(b, t, evs[0]), evs[1..])
  }

  /** The tables as allocated. */
  function Blank(): (t: Shared)
    ensures Good(t)
  {
    Shared(seq(RING_ID_MAX, _ => None), seq(RING_ID_MAX, _ => 0), seq(NUM_LMAC_RINGS, _ => 0), map[])
  }

  /** From the tables as allocated, through any interleaving over all rings, every ring keeps its
      pointer order and its readable entries. */
  lemma EveryRingSafe(b: Board, evs: seq<Event>, id: nat)
    requires ValidBoard(b) && Legal(b, Blank(), evs) && id < RING_ID_MAX
    ensures match ViewAt(Run(b, Blank(), evs), id)
            case Absent => true
            case SourceView(y) =>
              y.h.cached <= y.h.fetched <= y.h.published <= y.h.granted <= y.h.cached + y.r.n - 1 && S.Shaped(y) && S.Readable(y)
            case DestView(y) =>
              y.h.released <= y.h.consumed <= y.h.cached <= |y.h.log| < y.h.consumed + y.r.n && D.DstShaped(y) && D.Recent(y)
  {
    assert Safe(ViewAt(Run(b, Blank(), evs), id));
  }

  // ---- each ring as if alone --------------------------------------------------------

  /** The events of one ring. */
  function Own(evs: seq<Event>, id: nat): seq<RingEvent> {
    if evs == [] then []
    else (if evs[0].On? && evs[0].id == id then [evs[0].ev] else []) + Own(evs[1..], id)
  }

  function AloneRun(v: View, es: seq<RingEvent>): View
    decreases |es|
  {
    if es == [] then v else AloneRun(Alone(v, es[0]), es[1..])
  }

  ghost predicate SetsUp(evs: seq<Event>, id: nat) {
    exists k :: 0 <= k < |evs| && evs[k].Setup? && Subject(evs[k]) == Some(id)
  }

  /** In any interleaving of setups and events of all rings, host and device, a ring that is not
      set up again goes through exactly the run its own events make of it alone. */
  lemma {:induction false} Projects(b: Board, t: Shared, evs: seq<Event>, id: nat)
    requires ValidBoard(b) && Good(t) && Legal(b, t, evs) && id < RING_ID_MAX && !SetsUp(evs, id)
    ensures ViewAt(Run(b, t, evs), id) == AloneRun(ViewAt(t, id), Own(evs, id))
    decreases |evs|
  {
    if evs != [] {
      var e, u := evs[0], Step(b, t, evs[0]);
      StepGood(b, t, e);
      SetsUpTail(evs, id);
      Projects(b, u, evs[1..], id);
      OthersUntouched(b, t, e);
      if e.On? && e.id == id {
        OwnStep(b, t, id, e.ev);
        var rest := Own(evs[1..], id);
        assert Own(evs, id) == [e.ev] + rest && ([e.ev] + rest)[1..] == rest;
      } else {
        assert Untouched(t, u, id);
        assert Own(evs, id) == Own(evs[1..], id);
      }
    }
  }

  predicate AllSource(es: seq<RingEvent>) {
    forall i :: 0 <= i < |es| ==> es[i].OnSource?
  }

  lemma JoinSources(a: seq<RingEvent>, b: seq<RingEvent>)
    requires AllSource(a) && AllSource(b)
    ensures AllSource(a + b)
  {
  }

  function SourceEvents(es: seq<RingEvent>): seq<S.Event>
    requires AllSource(es)
  {
    if es == [] then [] else [es[0].s] + SourceEvents(es[1..])
  }

  lemma {:induction false} AloneIsSourceRun(s: S.Sys, es: seq<RingEvent>)
    requires S.Shaped(s) && AllSource(es)
    ensures AloneRun(SourceView(s), es) == SourceView(S.Run(s, SourceEvents(es)))
    decreases |es|
  {
    if es != [] {
      AloneIsSourceRun(S.Step(s, es[0].s), es[1..]);
      var rest := SourceEvents(es[1..]);
      assert ([es[0].s] + rest)[1..] == rest;
    }
  }

  lemma SetsUpTail(evs: seq<Event>, id: nat)
    requires evs != [] && !SetsUp(evs, id)
    ensures !SetsUp(evs[1..], id) && !(evs[0].Setup? && Subject(evs[0]) == Some(id))
  {
    assert forall k :: 0 <= k < |evs| - 1 ==> evs[1..][k] == evs[k + 1];
  }

  lemma SourceStays(b: Board, t: Shared, e: Event, id: nat)
    requires ValidBoard(b) && Good(t) && Enabled(b, t, e) && id < RING_ID_MAX && ViewAt(t, id).SourceView?
    requires !(e.Setup? && Subject(e) == Some(id))
    ensures Sized(Step(b, t, e)) && ViewAt(Step(b, t, e), id).SourceView?
    ensures e.On? && e.id == id ==> e.ev.OnSource?
  {
    OthersUntouched(b, t, e);
    if e.On? && e.id == id {
      OwnStep(b, t, id, e.ev);
    } else {
      assert Untouched(t, Step(b, t, e), id);
    }
  }

  lemma EmptySource()
    ensures AllSource([]) && forall ev: RingEvent :: ev.OnSource? ==> AllSource([ev])
  {
  }

  lemma {:induction false} OwnDirection(b: Board, t: Shared, evs: seq<Event>, id: nat)
    requires ValidBoard(b) && Good(t) && Legal(b, t, evs) && id < RING_ID_MAX && !SetsUp(evs, id)
    requires ViewAt(t, id).SourceView?
    ensures AllSource(Own(evs, id))
    decreases |evs|
  {
    hide Step, ViewAt, SetsUp, Good, Enabled, AllSource;
    EmptySource();
    if evs != [] {
      StepGood(b, t, evs[0]);
      SetsUpTail(evs, id);
      SourceStays(b, t, evs[0], id);
      OwnDirection(b, Step(b, t, evs[0]), evs[1..], id);
      var first := if evs[0].On? && evs[0].id == id then [evs[0].ev] else [];
      JoinSources(first, Own(evs[1..], id));
    }
  }

  /** A source ring, from the fresh state setup gives it on and among any traffic of the other rings,
      is the ring of SourceRing fed its own events: every theorem about that ring alone holds of it
      here. */
  lemma SourceLivesAlone(b: Board, t: Shared, n: nat, e: nat, evs: seq<Event>, id: nat)
    requires ValidBoard(b) && Good(t) && Legal(b, t, evs) && id < RING_ID_MAX && !SetsUp(evs, id)
    requires S.ValidShape(n, e) && ViewAt(t, id) == SourceView(S.Init(n, e))
    ensures AllSource(Own(evs, id))
    ensures ViewAt(Run(b, t, evs), id) == SourceView(S.Run(S.Init(n, e), SourceEvents(Own(evs, id))))
  {
    OwnDirection(b, t, evs, id);
    Projects(b, t, evs, id);
    AloneIsSourceRun(S.Init(n, e), Own(evs, id));
  }

  /** The record with access_end noted in its history: what was granted is published. */
  function Sealed(s: Srng): Srng
    requires S.ValidShape(s.n, s.c.entryWords) && |s.mem| == s.c.entryWords * s.n
  {
    match s.dir
    case Source(_, _, _, _) => s.(dir := s.dir.(sh := S.Step(ViewOf(Some(s), 0, 0).s, S.End).h))
    case Dest(_, _, h) => s.(dir := s.dir.(dh := h.(released := h.consumed)))
  }

  // What single events come to, for the methods below.

  lemma InTable(t: Shared, id: nat)
    requires Good(t) && id < RING_ID_MAX && t.srngs[id].Some?
    ensures Formed(id, t.srngs[id].value)
  {
  }

  /** When a source ring's getter finds an entry, and which. */
  lemma GetFinds(t: Shared, id: nat, s: Srng)
    requires Good(t) && id < RING_ID_MAX && t.srngs[id] == Some(s) && s.dir.Source?
    ensures s.n >= 1 && s.c.entryWords * s.n >= 1
    ensures s.dir.hp == Offset(s.n, s.c.entryWords, s.dir.sh.granted) && s.dir.hp + s.c.entryWords <= |s.mem|
    ensures var next := (s.dir.hp + s.c.entryWords) % (s.c.entryWords * s.n);
            next != s.dir.cachedTp <==> s.dir.sh.granted < s.dir.sh.cached + s.n - 1
  {
    assert Formed(id, s) && Safe(ViewAt(t, id));
    OffsetInRing(s.n, s.c.entryWords, s.dir.sh.granted);
    S.GetExact(ViewAt(t, id).s);
  }

  lemma GetIs(b: Board, t: Shared, id: nat, s: Srng)
    requires ValidBoard(b) && Good(t) && id < RING_ID_MAX && t.srngs[id] == Some(s) && s.dir.Source?
    ensures s.c.entryWords * s.n >= 1 && Enabled(b, t, On(id, OnSource(S.Get)))
    ensures var next := (s.dir.hp + s.c.entryWords) % (s.c.entryWords * s.n);
            var h := s.dir.sh.(granted := s.dir.sh.granted + 1, direct := true);
            Step(b, t, On(id, OnSource(S.Get))) ==
              if next == s.dir.cachedTp then t else Put(t, id, s.(dir := Source(next, s.dir.cachedTp, next, h)))
  {
    hide AllSafe, Unused, Published, Reg;
    assert Formed(id, s);
  }

  lemma FetchIs(b: Board, t: Shared, id: nat, s: Srng)
    requires ValidBoard(b) && Good(t) && id < RING_ID_MAX && t.srngs[id] == Some(s) && s.dir.Source?
    ensures s.c.entryWords * s.n >= 1 && Enabled(b, t, On(id, OnSource(S.Fetch)))
    ensures var h := s.dir.sh.(fetched := s.dir.sh.fetched + 1);
            Step(b, t, On(id, OnSource(S.Fetch))) ==
              if t.rdp[id] == Published(t.wrp, t.regs, id) then t
              else Put(t, id, s.(dir := s.dir.(sh := h)))
                     .(rdp := t.rdp[id := (t.rdp[id] + s.c.entryWords) % (s.c.entryWords * s.n)])
  {
    hide AllSafe, Unused, Published, Reg;
    assert Formed(id, s);
  }

  lemma DstGetFinds(t: Shared, id: nat, s: Srng)
    requires Good(t) && id < RING_ID_MAX && t.srngs[id] == Some(s) && s.dir.Dest?
    ensures s.n >= 1 && s.dir.tp == Offset(s.n, s.c.entryWords, s.dir.dh.consumed)
    ensures s.dir.tp + s.c.entryWords <= |s.mem|
    ensures s.dir.tp == s.dir.cachedHp <==> s.dir.dh.consumed == s.dir.dh.cached
  {
    assert Formed(id, s) && Safe(ViewAt(t, id));
    OffsetInRing(s.n, s.c.entryWords, s.dir.dh.consumed);
    D.DstGetExact(ViewAt(t, id).d);
  }

  lemma DstGetIs(b: Board, t: Shared, id: nat, s: Srng)
    requires ValidBoard(b) && Good(t) && id < RING_ID_MAX && t.srngs[id] == Some(s) && s.dir.Dest?
    ensures Enabled(b, t, On(id, OnDest(D.DGet)))
    ensures var h := s.dir.dh.(consumed := s.dir.dh.consumed + 1);
            Step(b, t, On(id, OnDest(D.DGet))) ==
              if s.dir.tp == s.dir.cachedHp then t
              else Put(t, id, s.(dir := s.dir.(tp := D.WrapByTest(s.dir.tp, s.c.entryWords, s.c.entryWords * s.n), dh := h)))
  {
    assert Formed(id, s) && Safe(ViewAt(t, id));
  }

  // ---- the tables as the driver holds them ------------------------------------------

  class Hal {
    const b: Board
    const srngs: array<Option<Srng>>
    const rdp: array<nat>
    const wrp: array<nat>
    var regs: map<nat, nat>

    ghost function State(): Shared
      reads this, srngs, rdp, wrp
    {
      Shared(srngs[..], rdp[..], wrp[..], regs)
    }

    ghost predicate Valid()
      reads this, srngs, rdp, wrp
    {
      && ValidBoard(b) && rdp != wrp
      && srngs.Length == RING_ID_MAX && rdp.Length == RING_ID_MAX && wrp.Length == NUM_LMAC_RINGS
      && Good(State())
    }

    constructor (b: Board)
      requires ValidBoard(b)
      ensures Valid() && fresh(srngs) && fresh(rdp) && fresh(wrp) && this.b == b && State() == Blank()
    {
      this.b := b;
      var s := new Option<Srng>[RING_ID_MAX](_ => None);
      var r := new nat[RING_ID_MAX](_ => 0);
      var w := new nat[NUM_LMAC_RINGS](_ => 0);
      srngs, rdp, wrp, regs := s, r, w, map[];
      new;
      assert srngs[..] == Blank().srngs && rdp[..] == Blank().rdp && wrp[..] == Blank().wrp;
    }

    /** wireless_simu_hal_srng_setup: the ring gets its id and starts fresh, or -EINVAL. */
    method Setup(c: Config, num: nat, mac: nat, base: nat, n: nat, o: Opts) returns (id: Option<int>)
      requires Valid() && Enabled(b, State(), Event.Setup(c, num, mac, base, n, o))
      modifies this, srngs, rdp
      ensures Valid() && id == GetRingId(c, num, mac)
      ensures State() == Step(b, old(State()), Event.Setup(c, num, mac, base, n, o))
    {
      ghost var t, e := State(), Event.Setup(c, num, mac, base, n, o);
      StepGood(b, t, e);
      id := GetRingId(c, num, mac);
      if id.None? { return; }
      RowId(b, c, num, mac);
      var i: nat := id.value;
      srngs[i] := Some(NewRing(c, base, n));
      if !c.lmac {
        rdp[i] := 0;
        regs := WriteAll(regs, i, InitWrites(b.fmt, c, base, n, i, b.rdpBus, o));
      }
      assert State() == Step(b, t, e);
    }

    /** access_begin: the ring's cell is copied into its cached pointer. */
    method AccessBegin(id: nat)
      requires Valid() && id < RING_ID_MAX && srngs[id].Some?
      modifies srngs
      ensures Valid()
      ensures State() == Step(b, old(State()), On(id, if old(srngs[id]).value.c.dst then OnDest(D.DBegin) else OnSource(S.Begin)))
    {
      ghost var t := State();
      assert Formed(id, t.srngs[id].value);
      var s := srngs[id].value;
      ghost var ev := if s.c.dst then OnDest(D.DBegin) else OnSource(S.Begin);
      StepGood(b, t, On(id, ev));
      match s.dir
      case Source(_, _, _, h) =>
        srngs[id] := Some(s.(dir := s.dir.(cachedTp := rdp[id], sh := h.(cached := h.fetched))));
        assert State() == Step(b, t, On(id, ev));
      case Dest(_, _, h) =>
        srngs[id] := Some(s.(dir := s.dir.(cachedHp := rdp[id], dh := h.(cached := |h.log|))));
        assert State() == Step(b, t, On(id, ev));
    }

    /** src_get_next_entry on the table's ring: the slot of the next position, or NULL exactly when
        n - 1 entries are in use as far as the cached tail tells. */
    method SrcGetNextEntry(id: nat) returns (desc: Option<nat>)
      requires Valid() && id < RING_ID_MAX && srngs[id].Some? && !srngs[id].value.c.dst
      modifies srngs
      ensures Valid() && State() == Step(b, old(State()), On(id, OnSource(S.Get)))
      ensures var s := old(srngs[id]).value;
              && s.n >= 1 && (desc.Some? <==> s.dir.sh.granted < s.dir.sh.cached + s.n - 1)
              && (desc.Some? ==>
                    && desc.value == Offset(s.n, s.c.entryWords, s.dir.sh.granted)
                    && desc.value + s.c.entryWords <= |s.mem|)
    {
      hide Step, Good, Enabled;
      ghost var t := State();
      InTable(t, id);
      var s := srngs[id].value;
      GetFinds(t, id, s);
      GetIs(b, t, id, s);
      StepGood(b, t, On(id, OnSource(S.Get)));
      var hp, e := s.dir.hp, s.c.entryWords;
      var next := (hp + e) % (e * s.n);
      if next == s.dir.cachedTp { return None; }
      desc := Some(hp);
      srngs[id] := Some(s.(dir := Source(next, s.dir.cachedTp, next, s.dir.sh.(granted := s.dir.sh.granted + 1, direct := true))));
      assert State() == Step(b, t, On(id, OnSource(S.Get)));
    }

    /** dst_get_next_entry on the table's ring: the slot of the oldest entry not taken, or NULL
        exactly when all that the host knows of are taken. */
    method DstGetNextEntry(id: nat) returns (desc: Option<nat>)
      requires Valid() && id < RING_ID_MAX && srngs[id].Some? && srngs[id].value.c.dst
      modifies srngs
      ensures Valid() && State() == Step(b, old(State()), On(id, OnDest(D.DGet)))
      ensures var s := old(srngs[id]).value;
              && s.n >= 1 && (desc.None? <==> s.dir.dh.consumed == s.dir.dh.cached)
              && (desc.Some? ==>
                    && desc.value == Offset(s.n, s.c.entryWords, s.dir.dh.consumed)
                    && desc.value + s.c.entryWords <= |s.mem|)
    {
      hide Step, Good, Enabled;
      ghost var t := State();
      InTable(t, id);
      var s := srngs[id].value;
      DstGetFinds(t, id, s);
      DstGetIs(b, t, id, s);
      StepGood(b, t, On(id, OnDest(D.DGet)));
      var tp, e := s.dir.tp, s.c.entryWords;
      if tp == s.dir.cachedHp { return None; }
      desc := Some(tp);
      tp := tp + e;
      if tp == e * s.n { tp := 0; }
      srngs[id] := Some(s.(dir := s.dir.(tp := tp, dh := s.dir.dh.(consumed := s.dir.dh.consumed + 1))));
      assert State() == Step(b, t, On(id, OnDest(D.DGet)));
    }

    /** access_end: the host's pointer goes to the ring's shared cell or to its register. */
    method AccessEnd(id: nat)
      requires Valid() && id < RING_ID_MAX && srngs[id].Some?
      modifies this, srngs, wrp
      ensures Valid()
      ensures State() == Step(b, old(State()), On(id, if old(srngs[id]).value.c.dst then OnDest(D.DEnd) else OnSource(S.End)))
    {
      ghost var t := State();
      assert Formed(id, t.srngs[id].value);
      var s := srngs[id].value;
      ghost var ev := if s.c.dst then OnDest(D.DEnd) else OnSource(S.End);
      StepGood(b, t, On(id, ev));
      ghost var u := Step(b, t, On(id, ev));
      var p := if s.c.dst then s.dir.tp else s.dir.hp;
      if s.c.lmac {
        wrp[id - LMAC1_ID_START] := p;
      } else {
        regs := regs[Reg(id, 1, 0) := p];
      }
      srngs[id] := Some(Sealed(s));
      assert State() == u;
    }

    /** The device consumes one published entry of a source ring, if there is one, and writes its
        pointer into the ring's cell. */
    method DeviceFetch(id: nat)
      requires Valid() && id < RING_ID_MAX && srngs[id].Some? && !srngs[id].value.c.dst
      modifies srngs, rdp
      ensures Valid() && State() == Step(b, old(State()), On(id, OnSource(S.Fetch)))
    {
      hide Step, Good, Enabled;
      ghost var t := State();
      InTable(t, id);
      var s := srngs[id].value;
      var e := s.c.entryWords;
      FetchIs(b, t, id, s);
      StepGood(b, t, On(id, OnSource(S.Fetch)));
      if rdp[id] != Published(wrp[..], regs, id) {
        rdp[id] := (rdp[id] + e) % (e * s.n);
        srngs[id] := Some(s.(dir := s.dir.(sh := s.dir.sh.(fetched := s.dir.sh.fetched + 1))));
      }
      assert State() == Step(b, t, On(id, OnSource(S.Fetch)));
    }

    /** The device writes one entry of a destination ring and its pointer into the ring's cell. */
    method DeviceReport(id: nat, entry: seq<nat>)
      requires Valid() && id < RING_ID_MAX && srngs[id].Some? && srngs[id].value.c.dst
      requires Enabled(b, State(), On(id, OnDest(D.Produce(entry)))) && |entry| == srngs[id].value.c.entryWords
      modifies srngs, rdp
      ensures Valid() && State() == Step(b, old(State()), On(id, OnDest(D.Produce(entry))))
    {
      ghost var t := State();
      assert Formed(id, t.srngs[id].value) && Safe(ViewAt(t, id));
      StepGood(b, t, On(id, OnDest(D.Produce(entry))));
      var s := srngs[id].value;
      var e := s.c.entryWords;
      srngs[id] := Some(s.(mem := Overwrite(s.mem, rdp[id], entry),
                           dir := s.dir.(dh := s.dir.dh.(log := s.dir.dh.log + [entry]))));
      rdp[id] := (rdp[id] + e) % (e * s.n);
      assert State() == Step(b, t, On(id, OnDest(D.Produce(entry))));
    }
  }
}