/** The receive pipe as the driver runs it: objects, arrays and loops. Every method moves along
    steps of the transition system, so every state it passes through is a reachable one. At
    each point where the driver touches shared memory the device may act first; its actions are
    drawn from an arbitrary schedule. */
module RxPipe {
  import opened Common
  import opened Bits
  import opened RingMath
  import opened Descriptors
  import opened RxPipeline
  import opened RxInvariant
  import opened RxTheorems
  import S = SourceRing
  import D = DestRing

  /** One action of the device. */
  datatype Dev = Fetch | Report(len: nat, flag: nat)

  /** The outcome of dev_alloc_skb followed by dma_map_single. */
  datatype Supply = NoMemory | MapFailed | Fresh(b: Skb)

  /** The state is one the transition system reaches from setup by the given events. */
  ghost predicate Reached(fmt: Layout, n: nat, trace: seq<Event>, p: Pipe)
    requires ValidEntries(n)
  {
    Run(Init(fmt, n), trace) == Some(p)
  }

  lemma RingsValid(fmt: Layout, n: nat, trace: seq<Event>, p: Pipe)
    requires Supported(fmt, n) && Reached(fmt, n, trace, p)
    ensures S.Inv(p.post) && D.DstInv(p.stat) && |p.lens| == |p.stat.h.log|
  {
    ReachableInv(fmt, n, trace);
  }

  lemma ReportRoom(fmt: Layout, n: nat, trace: seq<Event>, p: Pipe)
    requires Supported(fmt, n) && Reached(fmt, n, trace, p) && |p.lens| < p.post.h.fetched
    ensures D.Room(p.stat)
  {
    ReachableInv(fmt, n, trace);
    RoomToReport(p);
  }

  /** A descriptor being filled is the one granted and not yet published entry. */
  lemma StoreAllowed(fmt: Layout, n: nat, trace: seq<Event>, p: Pipe)
    requires Supported(fmt, n) && Reached(fmt, n, trace, p) && p.pc.Filling?
    ensures p.post.h.granted >= 1 && p.pc.k <= POST_WORDS
    ensures p.pc.k < POST_WORDS ==> S.MayStore(p.post, p.post.h.granted - 1, p.pc.k)
  {
    ReachableInv(fmt, n, trace);
  }

  /** The state after recv_next has read a length: a zero length only ends the access, any
      other length delivers buffer b and returns its credit. */
  function Taken(p: Pipe, b: Skb, len: nat): Pipe
    requires p.si < |p.skb| && p.n >= 1
  {
    if len == 0 then p.(pc := RecvEnding)
    else p.(hand := Some(b), skb := p.skb[p.si := None], si := And(p.si + 1, p.n - 1),
            needed := Add32(p.needed, 1), pc := RecvEnding, delivered := p.delivered + [Delivery(b, len)])
  }

  /** A status descriptor obtained from the ring lies in its memory, and it is the oldest posted
      buffer that is delivered. */
  lemma TakeResult(fmt: Layout, n: nat, trace: seq<Event>, p: Pipe)
    requires Supported(fmt, n) && Reached(fmt, n, trace, p) && Shaped(p) && p.pc.RecvGot?
    ensures p.pc.off < |p.stat.r.mem| && p.hand.None? && p.needed < p.n - 2
    ensures 1 <= p.stat.h.consumed <= |p.lens| && p.stat.r.mem[p.pc.off] == p.lens[p.stat.h.consumed - 1]
    ensures |p.delivered| < |p.posted| && p.skb[p.si] == Some(p.posted[|p.delivered|])
    ensures var q := Taken(p, p.posted[|p.delivered|], p.stat.r.mem[p.pc.off]);
            Shaped(q) && Reached(fmt, n, trace + [RecvTake], q)
  {
    ReachableInv(fmt, n, trace);
    TakeReads(p);
    Advance(fmt, n, trace, p, RecvTake);
    assert Taken(p, p.posted[|p.delivered|], p.stat.r.mem[p.pc.off]) == Step(p, RecvTake);
  }

  lemma CheckSucceeds(fmt: Layout, n: nat, trace: seq<Event>, p: Pipe)
    requires Supported(fmt, n) && Reached(fmt, n, trace, p) && Shaped(p) && p.pc.Begun?
    ensures S.NumFree(p.post.r, p.post.r.cachedTp) >= 1 && S.GetSucceeds(p.post.r) && 0 < p.needed < TWO32
  {
    ReachableInv(fmt, n, trace);
    RoomToPost(p);
  }

  lemma CreditLeft(fmt: Layout, n: nat, trace: seq<Event>, p: Pipe)
    requires Supported(fmt, n) && Reached(fmt, n, trace, p) && p.pc.Mapped?
    ensures 0 < p.needed < TWO32
  {
    ReachableInv(fmt, n, trace);
  }

  lemma StartsEmpty(fmt: Layout, n: nat, trace: seq<Event>, p: Pipe)
    requires Supported(fmt, n) && Reached(fmt, n, trace, p) && p.pc.Idle?
    ensures Received(p.posted, p.delivered, |p.delivered|, p.lens, p.stat.h.consumed)
  {
    ReachableInv(fmt, n, trace);
  }

  lemma HandMapped(fmt: Layout, n: nat, trace: seq<Event>, p: Pipe)
    requires Supported(fmt, n) && Reached(fmt, n, trace, p) && p.hand.Some?
    ensures p.hand.value.paddr in p.mapped
  {
    ReachableInv(fmt, n, trace);
    UnmapContent(p);
  }

  /** The buffers posted since before are the first ones supplied, in order. */
  ghost predicate Supplied(supply: nat -> Supply, before: seq<Skb>, posted: seq<Skb>) {
    before <= posted && forall i: nat :: i < |posted| - |before| ==> supply(i) == Fresh(posted[|before| + i])
  }

  /** A supply that ends post_pipe: no memory, no mapping, or an address the DMA API does not hand
      out because it is mapped already. */
  predicate Fails(s: Supply, mapped: set<nat>) {
    match s
    case NoMemory => true
    case MapFailed => true
    case Fresh(b) => b.paddr in mapped
  }

  /** The addresses of the buffers posted since before. */
  ghost function NewAddresses(before: seq<Skb>, posted: seq<Skb>): set<nat>
    requires |before| <= |posted|
  {
    set i | |before| <= i < |posted| :: posted[i].paddr
  }

  lemma SuppliedNone(supply: nat -> Supply, posted: seq<Skb>)
    ensures Supplied(supply, posted, posted) && NewAddresses(posted, posted) == {}
  {
  }

  /** The first supplies are buffers, at addresses that are new and all different. */
  ghost predicate GoodSupply(supply: nat -> Supply, count: nat, mapped: set<nat>) {
    && (forall i: nat :: i < count ==> supply(i).Fresh? && supply(i).b.paddr !in mapped)
    && (forall i: nat, j: nat :: i < j < count ==> supply(i).b.paddr != supply(j).b.paddr)
  }

  /** Such a supply never fails before it is used up. */
  lemma GoodSupplyLasts(supply: nat -> Supply, count: nat, before: seq<Skb>, posted: seq<Skb>, mapped: set<nat>)
    requires GoodSupply(supply, count, mapped) && Supplied(supply, before, posted) && |posted| - |before| < count
    ensures !Fails(supply(|posted| - |before|), mapped + NewAddresses(before, posted))
  {
    var k: nat := |posted| - |before|;
    forall i | |before| <= i < |posted| ensures posted[i].paddr != supply(k).b.paddr {
      var x: nat := i - |before|;
      assert supply(x) == Fresh(posted[|before| + x]);
    }
  }

  lemma SuppliedOne(supply: nat -> Supply, before: seq<Skb>, posted: seq<Skb>, b: Skb)
    requires Supplied(supply, before, posted) && supply(|posted| - |before|) == Fresh(b)
    ensures Supplied(supply, before, posted + [b])
    ensures NewAddresses(before, posted + [b]) == NewAddresses(before, posted) + {b.paddr}
  {
    var q := posted + [b];
    assert q[|posted|] == b;
    assert forall i :: |before| <= i < |posted| ==> q[i] == posted[i];
  }

  /** The live mappings are exactly those of the buffers in slots lo and above, one each. */
  ghost predicate Owners(s: seq<Option<Skb>>, lo: nat, mapped: set<nat>) {
    && (forall i :: lo <= i < |s| && s[i].Some? ==> s[i].value.paddr in mapped)
    && (forall i, j :: lo <= i < j < |s| && s[i].Some? && s[j].Some? ==> s[i].value.paddr != s[j].value.paddr)
    && (forall m :: m in mapped ==> exists i :: lo <= i < |s| && s[i].Some? && s[i].value.paddr == m)
  }

  /** The position whose slot is i. */
  lemma SlotPosition(n: nat, skb: seq<Option<Skb>>, posted: seq<Skb>, d: nat, i: nat) returns (j: nat)
    requires |skb| == n >= 1 && Window(n, skb, posted, d) && i < n
    ensures d <= j < d + n && j % n == i
    ensures skb[i] == (if j < |posted| then Some(posted[j]) else None)
  {
    j := d + (if i >= d % n then i - d % n else i - d % n + n);
    ModWindow(d, j, n);
    assert SlotHolds(n, skb, posted, j);
  }

  /** With nothing in transit the slots of skb[] own the live mappings. */
  lemma WindowOwns(n: nat, skb: seq<Option<Skb>>, posted: seq<Skb>, d: nat, mapped: set<nat>)
    requires |skb| == n >= 1 && d <= |posted| <= d + n && Window(n, skb, posted, d)
    requires Dma(posted[d..], mapped)
    ensures Owners(skb, 0, mapped)
  {
    var live := posted[d..];
    forall i | 0 <= i < n && skb[i].Some? ensures skb[i].value.paddr in mapped {
      var j := SlotPosition(n, skb, posted, d, i);
      assert live[j - d] in live;
    }
    forall i, k | 0 <= i < k < n && skb[i].Some? && skb[k].Some? ensures skb[i].value.paddr != skb[k].value.paddr {
      var a := SlotPosition(n, skb, posted, d, i);
      var b := SlotPosition(n, skb, posted, d, k);
      assert live[a - d] == skb[i].value && live[b - d] == skb[k].value;
    }
    forall m | m in mapped ensures exists i :: 0 <= i < n && skb[i].Some? && skb[i].value.paddr == m {
      var c :| c in live && c.paddr == m;
      var x :| 0 <= x < |live| && live[x] == c;
      assert SlotHolds(n, skb, posted, d + x);
    }
  }

  lemma SlotsOwnMappings(fmt: Layout, n: nat, trace: seq<Event>, p: Pipe)
    requires Supported(fmt, n) && Reached(fmt, n, trace, p) && p.pc.Idle? && p.hand.None?
    ensures Owners(p.skb, 0, p.mapped)
  {
    ReachableInv(fmt, n, trace);
    assert Live(p) == p.posted[|p.delivered|..];
    WindowOwns(p.n, p.skb, p.posted, |p.delivered|, p.mapped);
  }

  /** The buffers in the slots, in slot order. */
  function Occupants(s: seq<Option<Skb>>): seq<Skb> {
    if s == [] then [] else Occupants(s[..|s| - 1]) + OptSeq(s[|s| - 1])
  }

  lemma {:induction false} OccupantIn(s: seq<Option<Skb>>, b: Skb)
    ensures b in Occupants(s) <==> Some(b) in s
    decreases |s|
  {
    if s != [] {
      OccupantIn(s[..|s| - 1], b);
      assert s == s[..|s| - 1] + [s[|s| - 1]];
    }
  }

  /** The live mappings are the addresses of the buffers in the slots. */
  lemma OwnersAre(s: seq<Option<Skb>>, mapped: set<nat>)
    requires Owners(s, 0, mapped)
    ensures mapped == set b | b in Occupants(s) :: b.paddr
  {
    forall m | m in mapped ensures exists b :: b in Occupants(s) && b.paddr == m {
      var i :| 0 <= i < |s| && s[i].Some? && s[i].value.paddr == m;
      OccupantIn(s, s[i].value);
      assert s[i].value in Occupants(s);
    }
    forall b | b in Occupants(s) ensures b.paddr in mapped {
      OccupantIn(s, b);
      var i :| 0 <= i < |s| && s[i] == Some(b);
    }
  }

  lemma {:induction false} OccupantsOnce(s: seq<Option<Skb>>, b: Skb)
    requires forall i, j :: 0 <= i < j < |s| && s[i].Some? && s[j].Some? ==> s[i].value.paddr != s[j].value.paddr
    ensures multiset(Occupants(s))[b] == if Some(b) in s then 1 else 0
    decreases |s|
  {
    if s != [] {
      var t := s[..|s| - 1];
      assert s == t + [s[|s| - 1]];
      OccupantsOnce(t, b);
      assert s[|s| - 1] == Some(b) ==> Some(b) !in t;
    }
  }

  lemma {:induction false} DistinctOnce(q: seq<Skb>, b: Skb)
    requires forall i, j :: 0 <= i < j < |q| ==> q[i].paddr != q[j].paddr
    ensures multiset(q)[b] == if b in q then 1 else 0
    decreases |q|
  {
    if q != [] {
      var t := q[..|q| - 1];
      assert q == t + [q[|q| - 1]];
      DistinctOnce(t, b);
    }
  }

  /** The buffers in the slots are the posted, undelivered ones. */
  lemma SlotsHoldQueue(fmt: Layout, n: nat, trace: seq<Event>, p: Pipe)
    requires Supported(fmt, n) && Reached(fmt, n, trace, p) && p.pc.Idle? && p.hand.None?
    ensures |p.delivered| <= |p.posted|
    ensures multiset(Occupants(p.skb)) == multiset(p.posted[|p.delivered|..])
  {
    ReachableInv(fmt, n, trace);
    SlotsOwnMappings(fmt, n, trace, p);
    var live := p.posted[|p.delivered|..];
    assert Live(p) == live;
    forall b: Skb
      ensures multiset(Occupants(p.skb))[b] == multiset(live)[b]
    {
      OccupantsOnce(p.skb, b);
      DistinctOnce(live, b);
      InSlotsIffQueued(p.n, p.skb, p.posted, |p.delivered|, b);
    }
  }

  lemma InSlotsIffQueued(n: nat, skb: seq<Option<Skb>>, posted: seq<Skb>, d: nat, b: Skb)
    requires |skb| == n >= 1 && d <= |posted| <= d + n && Window(n, skb, posted, d)
    ensures Some(b) in skb <==> b in posted[d..]
  {
    if Some(b) in skb {
      var i :| 0 <= i < n && skb[i] == Some(b);
      var j := SlotPosition(n, skb, posted, d, i);
      assert posted[d..][j - d] == b;
    }
    if b in posted[d..] {
      var x :| 0 <= x < |posted[d..]| && posted[d..][x] == b;
      assert SlotHolds(n, skb, posted, d + x);
    }
  }

  /** Giving up slot i's buffer, if it has one, leaves the others' mappings. */
  lemma OwnersStep(s: seq<Option<Skb>>, i: nat, mapped: set<nat>)
    requires i < |s| && Owners(s, i, mapped)
    ensures s[i].None? ==> Owners(s, i + 1, mapped)
    ensures s[i].Some? ==> s[i].value.paddr in mapped && Owners(s, i + 1, mapped - {s[i].value.paddr})
  {
    if s[i].Some? {
      var rest := mapped - {s[i].value.paddr};
      forall m | m in rest ensures exists k :: i + 1 <= k < |s| && s[k].Some? && s[k].value.paddr == m {
        var k :| i <= k < |s| && s[k].Some? && s[k].value.paddr == m;
      }
    }
  }

  /** The deliveries that fit a buffer of the given size. */
  function Fitting(s: seq<Delivery>, maxBytes: nat): seq<Delivery> {
    if s == [] then []
    else
      var x := s[|s| - 1];
      Fitting(s[..|s| - 1], maxBytes) + (if x.nbytes <= maxBytes then [x] else [])
  }

  /** The deliveries from position `from` on carry the posted buffers of their positions, with the
      lengths of the statuses from c on, all positive. */
  ghost predicate Received(posted: seq<Skb>, delivered: seq<Delivery>, from: nat, lens: seq<nat>, c: nat) {
    && from <= |delivered| <= |posted| && c + (|delivered| - from) <= |lens|
    && forall i :: from <= i < |delivered| ==> delivered[i] == Delivery(posted[i], lens[c + i - from]) && delivered[i].nbytes > 0
  }

  lemma ReceivedLater(posted: seq<Skb>, d: seq<Delivery>, from: nat, lens: seq<nat>, c: nat, lens': seq<nat>)
    requires Received(posted, d, from, lens, c) && lens <= lens'
    ensures Received(posted, d, from, lens', c)
    ensures |d| < |posted| && c + (|d| - from) < |lens'| && lens'[c + (|d| - from)] > 0 ==>
              Received(posted, d + [Delivery(posted[|d|], lens'[c + (|d| - from)])], from, lens', c)
  {
  }

  /** Where a drain ends after k deliveries from status c on: with every status read that was there
      when it began, or with a zero length consumed. */
  ghost predicate DrainEnds(consumed: nat, lens: seq<nat>, c: nat, k: nat, atStart: nat) {
    || (consumed == c + k && atStart <= consumed)
    || (consumed == c + k + 1 <= |lens| && lens[c + k] == 0)
  }

  /** Its last call, which began at status c + k, decides. */
  lemma DrainEndsFrom(consumed: nat, lens: seq<nat>, c: nat, k: nat, atStart: nat, later: nat)
    requires DrainEnds(consumed, lens, c + k, 0, later) && atStart <= later
    ensures DrainEnds(consumed, lens, c, k, atStart)
  {
  }

  /** A drain that meets no zero length among the statuses present at its start reads them all. */
  lemma DrainReadsAll(consumed: nat, lens: seq<nat>, c: nat, k: nat, atStart: nat)
    requires DrainEnds(consumed, lens, c, k, atStart) && atStart <= |lens|
    requires forall i :: c <= i < atStart ==> lens[i] > 0
    ensures atStart <= consumed
  {
  }

  /** Among the fitting deliveries are exactly those of s that fit, as often as they occur. */
  lemma {:induction false} FittingExact(s: seq<Delivery>, maxBytes: nat, x: Delivery)
    ensures multiset(Fitting(s, maxBytes))[x] == if x.nbytes <= maxBytes then multiset(s)[x] else 0
    decreases |s|
  {
    if s != [] {
      var t := s[..|s| - 1];
      assert s == t + [s[|s| - 1]];
      FittingExact(t, maxBytes, x);
    }
  }

  /** They keep their order. */
  lemma {:induction false} FittingInOrder(s: seq<Delivery>, t: seq<Delivery>, maxBytes: nat)
    ensures Fitting(s + t, maxBytes) == Fitting(s, maxBytes) + Fitting(t, maxBytes)
    decreases |t|
  {
    if t == [] {
      assert s + t == s;
    } else {
      assert (s + t)[..|s + t| - 1] == s + t[..|t| - 1];
      FittingInOrder(s, t[..|t| - 1], maxBytes);
    }
  }

  /** The list holds the fitting ones among the deliveries from position `from` up to upTo. */
  ghost predicate Kept(list: seq<Delivery>, d: seq<Delivery>, from: nat, upTo: nat, maxBytes: nat) {
    from <= upTo <= |d| && list == Fitting(d[from..upTo], maxBytes)
  }

  lemma KeptNone(d: seq<Delivery>, from: nat, maxBytes: nat)
    requires from <= |d|
    ensures Kept([], d, from, from, maxBytes)
  {
    assert d[from..from] == [];
  }

  lemma KeptNext(list: seq<Delivery>, d: seq<Delivery>, from: nat, maxBytes: nat)
    requires from < |d| && Kept(list, d, from, |d| - 1, maxBytes)
    ensures Kept(if d[|d| - 1].nbytes <= maxBytes then list + [d[|d| - 1]] else list, d, from, |d|, maxBytes)
  {
    var e := d[from..|d|];
    assert e[..|e| - 1] == d[from..|d| - 1];
  }

  lemma KeptMore(list: seq<Delivery>, d: seq<Delivery>, x: Delivery, from: nat, maxBytes: nat)
    requires Kept(list, d, from, |d|, maxBytes)
    ensures Kept(list, d + [x], from, |d|, maxBytes)
  {
    assert (d + [x])[from..|d|] == d[from..|d|];
  }

  lemma KeptAll(list: seq<Delivery>, d: seq<Delivery>, from: nat, maxBytes: nat)
    requires Kept(list, d, from, |d|, maxBytes)
    ensures list == Fitting(d[from..], maxBytes)
  {
    assert d[from..|d|] == d[from..];
  }

  /** What a turn of the device may change. */
  ghost predicate DeviceOnly(p: Pipe, q: Pipe) {
    && q == p.(post := q.post, stat := q.stat, lens := q.lens)
    && q.post.r == p.post.r.(tpCell := q.post.r.tpCell)
    && q.post.h == p.post.h.(fetched := q.post.h.fetched) && p.post.h.fetched <= q.post.h.fetched
    && q.stat.r == p.stat.r.(hpCell := q.stat.r.hpCell, mem := q.stat.r.mem)
    && q.stat.h == p.stat.h.(log := q.stat.h.log)
    && p.lens <= q.lens
  }

  /** What the host knows of the status ring: the lengths reported so far, the statuses it has taken
      and those it knew of when it last cached the head. */
  datatype Status = Status(lens: seq<nat>, consumed: nat, cached: nat)

  /** The device may have reported more; the host has taken nothing. */
  ghost predicate Later(a: Status, b: Status) {
    a.lens <= b.lens && b.consumed == a.consumed && b.cached == a.cached
  }

  lemma DeviceStepOnly(p: Pipe, ev: Event)
    requires Shaped(p) && (ev.DevFetch? || ev.DevStatus?)
    ensures DeviceOnly(p, Step(p, ev))
  {
  }

  lemma Advance(fmt: Layout, n: nat, trace: seq<Event>, p: Pipe, ev: Event)
    requires Supported(fmt, n) && Reached(fmt, n, trace, p)
    ensures Shaped(p) && Shaped(Step(p, ev)) && Reached(fmt, n, trace + [ev], Step(p, ev))
  {
    ReachableInv(fmt, n, trace);
    StepInv(p, ev);
    RunExtend(Init(fmt, n), trace, ev);
  }

  class RxPipe {
    const fmt: Layout
    const n: nat
    const post: S.SrcRing              // pipe->dst_ring's srng
    const stat: D.DstRing              // pipe->status_ring's srng
    const skb: array<Option<Skb>>      // pipe->dst_ring->skb
    const schedule: nat -> seq<Dev>    // what the device does in each gap
    var gap: nat
    var writeIndex: nat
    var swIndex: nat
    var needed: nat
    var hand: Option<Skb>
    var mapped: set<nat>
    var fetches: nat                   // the device's own counters
    var reports: nat
    ghost var pc: Pc
    ghost var posted: seq<Skb>
    ghost var lens: seq<nat>
    ghost var delivered: seq<Delivery>
    ghost var trace: seq<Event>

    ghost function Objects(): set<object>
      reads this
    {
      {this, post, post.mem, stat, stat.mem, skb}
    }

    ghost function State(): Pipe
      reads Objects()
    {
      Pipe(fmt, n, post.State(), stat.State(), writeIndex, swIndex, needed, skb[..], pc,
           hand, mapped, posted, lens, delivered)
    }

    /** What the callers of the pipe's operations see. */
    ghost function View(): (seq<Skb>, seq<Delivery>, nat, Option<Skb>, set<nat>)
      reads this
    {
      (posted, delivered, needed, hand, mapped)
    }

    ghost function Reading(): Status
      reads this, stat
    {
      Status(lens, stat.h.consumed, stat.h.cached)
    }

    /** The object is well formed and its state is a reachable one. */
    ghost predicate Valid()
      reads Objects()
    {
      && post.mem != stat.mem
      && Supported(fmt, n) && Shaped(State())
      && fetches == post.h.fetched && reports == |lens|
      && Reached(fmt, n, trace, State())
    }

    /** wireless_simu_hal_srng_dst_test_init for one pipe, after its rings are allocated. */
    constructor (fmt: Layout, entries: nat, schedule: nat -> seq<Dev>)
      requires Supported(fmt, entries)
      ensures Valid() && fresh(Objects()) && State() == Init(fmt, entries)
    {
      this.fmt, this.n, this.schedule := fmt, entries, schedule;
      var p := new S.SrcRing(entries, POST_WORDS);
      var s := new D.DstRing(entries, STATUS_WORDS);
      post, stat := p, s;
      skb := new Option<Skb>[entries](_ => None);
      gap, writeIndex, swIndex := 0, 0, 0;
      needed := Sub32(entries, 2);
      hand, mapped, fetches, reports := None, {}, 0, 0;
      pc, posted, lens, delivered, trace := Idle, [], [], [], [];
      new;
      assert skb[..] == Init(fmt, entries).skb;
    }

    // ---- the device's turn ----------------------------------------------------------

    method DeviceFetch()
      requires Valid()
      modifies post, this`fetches, this`trace
      ensures Valid() && State() == Step(old(State()), DevFetch)
    {
      hide Reached;
      RingsValid(fmt, n, trace, State());
      Advance(fmt, n, trace, State(), DevFetch);
      var any := post.tpCell != post.hpReg;
      post.DeviceFetch();
      if any { fetches := fetches + 1; }
      trace := trace + [DevFetch];
    }

    method DeviceReport(len: nat, flag: nat)
      requires Valid()
      modifies stat, stat.mem, this`lens, this`reports, this`trace
      ensures Valid() && State() == Step(old(State()), DevStatus(len, flag))
    {
      hide Reached;
      RingsValid(fmt, n, trace, State());
      Advance(fmt, n, trace, State(), DevStatus(len, flag));
      trace := trace + [DevStatus(len, flag)];
      if reports < fetches {
        ReportRoom(fmt, n, old(trace), State());
        stat.DeviceProduce([len, flag]);
        reports := reports + 1;
        lens := lens + [len];
      }
    }

    /** The device acts as its schedule says, as often as it likes. */
    method DeviceTurn()
      requires Valid()
      modifies post, stat, stat.mem, this`fetches, this`reports, this`lens, this`trace, this`gap
      ensures Valid() && DeviceOnly(old(State()), State())
      ensures Later(old(Reading()), Reading())
    {
      var acts := schedule(gap);
      gap := gap + 1;
      for i := 0 to |acts|
        invariant Valid() && DeviceOnly(old(State()), State())
      {
        match acts[i]
        case Fetch =>
          DeviceStepOnly(State(), DevFetch);
          DeviceFetch();
        case Report(len, flag) =>
          DeviceStepOnly(State(), DevStatus(len, flag));
          DeviceReport(len, flag);
      }
    }

    // ---- enqueue_pipe ---------------------------------------------------------------

    method EnqBeginStep()
      requires Valid() && pc.Mapped?
      modifies post, this`pc, this`trace
      ensures Valid() && State() == Step(old(State()), EnqBegin)
    {
      hide Reached;
      RingsValid(fmt, n, trace, State());
      Advance(fmt, n, trace, State(), EnqBegin);
      post.AccessBegin();
      pc := Begun(pc.b);
      trace := trace + [EnqBegin];
      assert State() == Step(old(State()), EnqBegin);
    }

    method EnqCheckStep() returns (desc: Option<nat>)
      requires Valid() && pc.Begun?
      modifies post, this`pc, this`trace
      ensures Valid() && State() == Step(old(State()), EnqCheck)
      ensures desc.Some? <==> pc.Filling?
      ensures desc.Some? ==> desc.value == Offset(n, POST_WORDS, post.h.granted - 1)
      ensures desc.None? ==> pc.NoSpace?
    {
      hide Reached;
      RingsValid(fmt, n, trace, State());
      Advance(fmt, n, trace, State(), EnqCheck);
      ghost var p := State();
      var free := post.SrcNumFree(false);
      S.NumFreeExact(p.post);
      desc := None;
      if free >= 1 {
        desc := post.GetNextEntry();
      }
      pc := if desc.Some? then Filling(pc.b, 0) else NoSpace(pc.b);
      trace := trace + [EnqCheck];
      assert State() == Step(p, EnqCheck);
    }

    method EnqStoreStep(desc: nat, k: nat, paddr: nat)
      requires Valid() && pc.Filling? && pc.k == k < POST_WORDS && pc.b.paddr == paddr
      requires post.h.granted >= 1 && desc == Offset(n, POST_WORDS, post.h.granted - 1)
      modifies post.mem, this`pc, this`trace
      ensures Valid() && State() == Step(old(State()), EnqStore)
    {
      hide Reached;
      RingsValid(fmt, n, trace, State());
      Advance(fmt, n, trace, State(), EnqStore);
      StoreAllowed(fmt, n, trace, State());
      post.StoreWord(post.h.granted - 1, desc, k, DstDesc(fmt, paddr)[k]);
      pc := Filling(pc.b, k + 1);
      trace := trace + [EnqStore];
      assert State() == Step(old(State()), EnqStore);
    }

    method EnqCommitStep(b: Skb)
      requires Valid() && pc == Filling(b, POST_WORDS)
      modifies skb, this`writeIndex, this`needed, this`pc, this`posted, this`trace
      ensures Valid() && State() == Step(old(State()), EnqCommit) && pc == Publishing
      ensures View() == (old(posted) + [b], old(delivered), Sub32(old(needed), 1), old(hand), old(mapped))
    {
      hide Reached, Supported, And, Sub32;
      ghost var p := State();
      Advance(fmt, n, trace, p, EnqCommit);
      PushSlot(b);
      pc, posted, trace := Publishing, posted + [b], trace + [EnqCommit];
      assert State() == Step(p, EnqCommit);
    }

    method PushSlot(b: Skb)
      requires n >= 1 && writeIndex < skb.Length
      modifies skb, this`writeIndex, this`needed
      ensures skb[..] == old(skb[..])[old(writeIndex) := Some(b)]
      ensures writeIndex == And(old(writeIndex) + 1, n - 1) && needed == Sub32(old(needed), 1)
    {
      skb[writeIndex] := Some(b);
      writeIndex := And(writeIndex + 1, n - 1);
      needed := Sub32(needed, 1);
    }

    method EnqEndStep()
      requires Valid() && (pc.Publishing? || pc.NoSpace?)
      modifies post, this`pc, this`trace
      ensures Valid() && State() == Step(old(State()), EnqEnd) && View() == old(View())
      ensures pc == if old(pc).Publishing? then Posting else Undo(old(pc).b)
    {
      RingsValid(fmt, n, trace, State());
      Advance(fmt, n, trace, State(), EnqEnd);
      post.AccessEnd();
      pc := if pc.Publishing? then Posting else Undo(pc.b);
      trace := trace + [EnqEnd];
      assert State() == Step(old(State()), EnqEnd);
    }

    /** access_begin, then src_num_free and src_get_next_entry on the tail it cached. */
    method EnqOpen(b: Skb) returns (desc: Option<nat>)
      requires Valid() && pc == Mapped(b)
      modifies Objects()
      ensures Valid() && View() == old(View())
      ensures Later(old(Reading()), Reading())
      ensures desc.Some? && pc == Filling(b, 0) && 0 < needed < TWO32
      ensures post.h.granted >= 1 && desc.value == Offset(n, POST_WORDS, post.h.granted - 1)
    {
      CreditLeft(fmt, n, trace, State());
      EnqOpenBegin(b);
      desc := EnqOpenGet(b);
    }

    method EnqOpenBegin(b: Skb)
      requires Valid() && pc == Mapped(b)
      modifies Objects()
      ensures Valid() && View() == old(View()) && pc == Begun(b)
      ensures Later(old(Reading()), Reading())
    {
      DeviceTurn();
      EnqBeginStep();
    }

    method EnqOpenGet(b: Skb) returns (desc: Option<nat>)
      requires Valid() && pc == Begun(b)
      modifies Objects()
      ensures Valid() && View() == old(View())
      ensures Later(old(Reading()), Reading())
      ensures desc.Some? && pc == Filling(b, 0)
      ensures post.h.granted >= 1 && desc.value == Offset(n, POST_WORDS, post.h.granted - 1)
    {
      DeviceTurn();
      CheckSucceeds(fmt, n, trace, State());
      desc := EnqCheckStep();
    }

    /** wireless_simu_test_dst_set_desc, word by word. */
    method FillDesc(desc: nat, b: Skb)
      requires Valid() && pc == Filling(b, 0)
      requires post.h.granted >= 1 && desc == Offset(n, POST_WORDS, post.h.granted - 1)
      modifies Objects()
      ensures Valid() && View() == old(View()) && pc == Filling(b, POST_WORDS)
      ensures Later(old(Reading()), Reading())
    {
      hide Reached, Supported, Step;
      for k := 0 to POST_WORDS
        invariant Valid() && View() == old(View()) && pc == Filling(b, k)
        invariant Later(old(Reading()), Reading())
        invariant post.h.granted >= 1 && desc == Offset(n, POST_WORDS, post.h.granted - 1)
      {
        FillWord(desc, b, k);
      }
    }

    method FillWord(desc: nat, b: Skb, k: nat)
      requires Valid() && pc == Filling(b, k) && k < POST_WORDS
      requires post.h.granted >= 1 && desc == Offset(n, POST_WORDS, post.h.granted - 1)
      modifies Objects()
      ensures Valid() && View() == old(View()) && pc == Filling(b, k + 1)
      ensures Later(old(Reading()), Reading())
      ensures post.h.granted == old(post.h.granted)
    {
      DeviceTurn();
      EnqStoreStep(desc, k, b.paddr);
    }

    /** wireless_simu_test_dst_enqueue_pipe: called with credit left, it always finds an entry,
        whatever the device does meanwhile, and appends the buffer to the posted window. */
    method EnqueuePipe(b: Skb) returns (ret: int)
      requires Valid() && pc == Mapped(b)
      modifies Objects()
      ensures Valid() && ret == 0 && pc == Posting
      ensures posted == old(posted) + [b] && delivered == old(delivered)
      ensures old(needed) > 0 && needed == old(needed) - 1
      ensures hand == old(hand) && mapped == old(mapped)
      ensures Later(old(Reading()), Reading())
    {
      hide Shaped, Reached, Supported, Step;
      ret := 0;
      var desc := EnqOpen(b);
      Dec32(needed);
      if desc.None? {
        ret := -ENOSPC;
      } else {
        FillDesc(desc.value, b);
        EnqCommitStep(b);
      }
      DeviceTurn();
      EnqEndStep();
    }

    // ---- post_pipe ------------------------------------------------------------------

    method LockPostStep()
      requires Valid() && pc.Idle?
      modifies this`pc, this`trace
      ensures Valid() && View() == old(View()) && pc == Posting
    {
      Advance(fmt, n, trace, State(), LockPost);
      pc, trace := Posting, trace + [LockPost];
    }

    method PostExitStep()
      requires Valid() && pc.Posting?
      modifies this`pc, this`trace
      ensures Valid() && View() == old(View()) && pc == Idle
    {
      Advance(fmt, n, trace, State(), PostExit);
      pc, trace := Idle, trace + [PostExit];
    }

    /** dma_map_single succeeds with an address that is not mapped yet. */
    method MapStep(b: Skb)
      requires Valid() && pc.Posting? && needed > 0 && b.paddr !in mapped
      modifies this`pc, this`mapped, this`trace
      ensures Valid() && pc == Mapped(b) && mapped == old(mapped) + {b.paddr}
    {
      Advance(fmt, n, trace, State(), MapOk(b));
      pc, mapped, trace := Mapped(b), mapped + {b.paddr}, trace + [MapOk(b)];
    }

    /** One buffer is mapped and enqueued; its mapping would be given back if that failed. */
    method PostOne(b: Skb) returns (ret: int)
      requires Valid() && pc.Posting? && needed > 0 && b.paddr !in mapped
      modifies Objects()
      ensures Valid() && pc == Posting && ret == 0
      ensures View() == (old(posted) + [b], old(delivered), old(needed) - 1, old(hand), old(mapped) + {b.paddr})
      ensures Later(old(Reading()), Reading())
    {
      hide Shaped, Reached, Supported;
      MapStep(b);
      ret := EnqueuePipe(b);
      mapped := if ret != 0 then mapped - {b.paddr} else mapped;
    }

    /** wireless_simu_test_dst_post_pipe. It posts the supplied buffers in order, one a unit of
        credit, until the credit is used up or a supply fails; it returns 0 exactly in the first
        case, and in the second the error that belongs to that supply, never -ENOSPC. */
    method PostPipe(supply: nat -> Supply) returns (ret: int)
      requires Valid() && pc.Idle?
      modifies Objects()
      ensures Valid() && pc == Idle && delivered == old(delivered) && hand == old(hand)
      ensures Later(old(Reading()), Reading())
      ensures Supplied(supply, old(posted), posted) && needed + |posted| == old(needed) + |old(posted)|
      ensures mapped == old(mapped) + NewAddresses(old(posted), posted)
      ensures ret == 0 <==> needed == 0
      ensures ret != 0 ==> Fails(supply(|posted| - |old(posted)|), mapped)
      ensures ret != 0 ==> ret == if supply(|posted| - |old(posted)|).NoMemory? then -ENOMEM else -EIO
      ensures GoodSupply(supply, old(needed), old(mapped)) ==> ret == 0 && |posted| == |old(posted)| + old(needed)
    {
      hide Valid, Supplied, NewAddresses, GoodSupply;
      ret := 0;
      var i: nat := 0;
      SuppliedNone(supply, posted);
      LockPostStep();
      while needed != 0 && ret == 0
        invariant Valid() && pc == Posting && delivered == old(delivered) && hand == old(hand)
        invariant Later(old(Reading()), Reading())
        invariant |old(posted)| <= |posted| && Supplied(supply, old(posted), posted)
        invariant needed + |posted| == old(needed) + |old(posted)|
        invariant mapped == old(mapped) + NewAddresses(old(posted), posted)
        invariant ret == 0 ==> i == |posted| - |old(posted)|
        invariant ret != 0 ==> needed != 0 && Fails(supply(|posted| - |old(posted)|), mapped)
        invariant ret != 0 ==> ret == if supply(|posted| - |old(posted)|).NoMemory? then -ENOMEM else -EIO
        decreases needed, ret == 0
      {
        match supply(i)
        case NoMemory => ret := -ENOMEM;
        case MapFailed => ret := -EIO;
        case Fresh(b) =>
          if b.paddr in mapped {
            ret := -EIO;
          } else {
            SuppliedOne(supply, old(posted), posted, b);
            ret := PostOne(b);
          }
        i := i + 1;
      }
      if ret != 0 && GoodSupply(supply, old(needed), old(mapped)) {
        GoodSupplyLasts(supply, old(needed), old(posted), posted, old(mapped));
      }
      PostExitStep();
    }

    // ---- recv_next ------------------------------------------------------------------

    method RecvStartStep()
      requires Valid() && pc.Idle? && hand.None?
      modifies stat, this`pc, this`trace
      ensures Valid() && View() == old(View()) && pc == RecvBegun
      ensures Reading() == old(Reading()).(cached := |old(lens)|)
    {
      RingsValid(fmt, n, trace, State());
      LockRecvStep();
      ghost var p := State();
      Advance(fmt, n, trace, State(), RecvBegin);
      stat.AccessBegin();
      pc, trace := RecvBegun, trace + [RecvBegin];
      assert State() == Step(p, RecvBegin);
    }

    method LockRecvStep()
      requires Valid() && pc.Idle? && hand.None?
      modifies this`pc, this`trace
      ensures Valid() && View() == old(View()) && pc == RecvLocked
    {
      Advance(fmt, n, trace, State(), LockRecv);
      pc, trace := RecvLocked, trace + [LockRecv];
    }

    method RecvGetStep() returns (desc: Option<nat>)
      requires Valid() && pc.RecvBegun?
      modifies stat, this`pc, this`trace
      ensures Valid() && View() == old(View()) && stat.h.consumed <= |lens|
      ensures desc.Some? ==> pc == RecvGot(desc.value) && Reading() == old(Reading()).(consumed := old(stat.h.consumed) + 1)
      ensures desc.None? ==> pc == RecvEnding && Reading() == old(Reading()) && stat.h.consumed == stat.h.cached
    {
      hide Reached;
      RingsValid(fmt, n, trace, State());
      Advance(fmt, n, trace, State(), RecvGet);
      desc := stat.GetNextEntry();
      pc := if desc.Some? then RecvGot(desc.value) else RecvEnding;
      trace := trace + [RecvGet];
    }

    /** A status of length zero is consumed without a delivery. */
    method TakeNothing(desc: nat)
      requires Valid() && pc == RecvGot(desc) && desc < stat.mem.Length && stat.mem[desc] == 0
      modifies this`pc, this`trace
      ensures Valid() && pc == RecvEnding && View() == old(View()) && hand.None?
    {
      TakeResult(fmt, n, trace, State());
      pc, trace := RecvEnding, trace + [RecvTake];
    }

    /** The buffer at sw_index leaves the array; index and credit advance. */
    method TakeBuffer(nbytes: nat, ghost b: Skb)
      requires Shaped(State()) && skb[swIndex] == Some(b) && nbytes > 0
      modifies skb, this`hand, this`swIndex, this`needed, this`pc, this`delivered, this`trace
      ensures State() == Taken(old(State()), b, nbytes) && trace == old(trace) + [RecvTake]
    {
      ghost var p := State();
      PopSlot();
      pc, delivered, trace := RecvEnding, delivered + [Delivery(b, nbytes)], trace + [RecvTake];
      assert State() == Taken(p, b, nbytes);
    }

    method PopSlot()
      requires n >= 1 && swIndex < skb.Length
      modifies skb, this`hand, this`swIndex, this`needed
      ensures hand == old(skb[swIndex]) && skb[..] == old(skb[..])[old(swIndex) := None]
      ensures swIndex == And(old(swIndex) + 1, n - 1) && needed == Add32(old(needed), 1)
    {
      hand := skb[swIndex];
      skb[swIndex] := None;
      swIndex := And(swIndex + 1, n - 1);
      needed := Add32(needed, 1);
    }

    /** Reads the length; a non-zero length takes the buffer at sw_index out of the window. */
    method RecvTakeStep(desc: nat) returns (nbytes: nat)
      requires Valid() && pc == RecvGot(desc)
      modifies skb, this`hand, this`swIndex, this`needed, this`pc, this`delivered, this`trace
      ensures Valid() && pc == RecvEnding
      ensures 1 <= stat.h.consumed <= |lens| && nbytes == lens[stat.h.consumed - 1]
      ensures nbytes == 0 ==> View() == old(View()) && hand.None?
      ensures nbytes > 0 ==>
                && |old(delivered)| < |posted| && hand == Some(posted[|old(delivered)|])
                && delivered == old(delivered) + [Delivery(hand.value, nbytes)]
                && needed == old(needed) + 1 <= n - 2
    {
      hide Reached, Supported;
      TakeResult(fmt, n, trace, State());
      nbytes := stat.mem[desc];
      Inc32(needed);
      if nbytes == 0 {
        TakeNothing(desc);
      } else {
        TakeBuffer(nbytes, posted[|delivered|]);
      }
    }

    method RecvEndStep()
      requires Valid() && pc.RecvEnding?
      modifies stat, this`pc, this`trace
      ensures Valid() && View() == old(View()) && pc == Idle && Reading() == old(Reading())
      ensures stat.h.released == stat.h.consumed
    {
      hide Reached;
      RingsValid(fmt, n, trace, State());
      Advance(fmt, n, trace, State(), RecvEnd);
      stat.AccessEnd();
      pc, trace := Idle, trace + [RecvEnd];
    }

    /** wireless_simu_test_dst_recv_next. It takes the oldest unread status, and fails without taking
        one only if every status reported before the call was read. A positive length is success:
        it delivers the oldest posted buffer with that length and returns one unit of credit. A
        length of zero is a failure and, like the other, changes neither. The new tail is published. */
    method RecvNext() returns (ret: int, nbytes: nat)
      requires Valid() && pc.Idle? && hand.None?
      modifies Objects()
      ensures Valid() && pc == Idle && posted == old(posted) && mapped == old(mapped)
      ensures ret == 0 || ret == -EIO
      ensures old(lens) <= lens && stat.h.released == stat.h.consumed <= |lens|
      ensures stat.h.consumed == old(stat.h.consumed) ||
                (stat.h.consumed == old(stat.h.consumed) + 1 && nbytes == lens[old(stat.h.consumed)])
      ensures stat.h.consumed == old(stat.h.consumed) ==> ret == -EIO && |old(lens)| <= stat.h.consumed == stat.h.cached
      ensures stat.h.consumed > old(stat.h.consumed) ==> (ret == 0 <==> nbytes > 0)
      ensures ret != 0 ==> DrainEnds(stat.h.consumed, lens, old(stat.h.consumed), 0, |old(lens)|)
      ensures ret == 0 ==>
                && nbytes > 0 && |old(delivered)| < |posted| && hand == Some(posted[|old(delivered)|])
                && delivered == old(delivered) + [Delivery(hand.value, nbytes)]
                && needed == old(needed) + 1 <= n - 2
      ensures ret != 0 ==> View() == old(View())
    {
      hide Shaped, Reached, Supported;
      ret, nbytes := 0, 0;
      var desc := RecvOpen();
      if desc.None? {
        ret := -EIO;
      } else {
        nbytes := RecvRead(desc.value);
        if nbytes == 0 {
          ret := -EIO;
        }
      }
      RecvClose();
    }

    method RecvRead(desc: nat) returns (nbytes: nat)
      requires Valid() && pc == RecvGot(desc)
      modifies Objects()
      ensures Valid() && pc == RecvEnding && posted == old(posted) && mapped == old(mapped)
      ensures Later(old(Reading()), Reading())
      ensures 1 <= stat.h.consumed <= |lens| && nbytes == lens[stat.h.consumed - 1]
      ensures nbytes == 0 ==> View() == old(View()) && hand.None?
      ensures nbytes > 0 ==>
                && |old(delivered)| < |posted| && hand == Some(posted[|old(delivered)|])
                && delivered == old(delivered) + [Delivery(hand.value, nbytes)]
                && needed == old(needed) + 1 <= n - 2
    {
      hide Shaped, Reached, Supported;
      DeviceTurn();
      nbytes := RecvTakeStep(desc);
    }

    method RecvClose()
      requires Valid() && pc.RecvEnding?
      modifies Objects()
      ensures Valid() && pc == Idle && View() == old(View()) && stat.h.released == stat.h.consumed
      ensures Later(old(Reading()), Reading())
    {
      hide Shaped, Reached, Supported;
      DeviceTurn();
      RecvEndStep();
    }

    method RecvOpen() returns (desc: Option<nat>)
      requires Valid() && pc.Idle? && hand.None?
      modifies Objects()
      ensures Valid() && View() == old(View()) && old(lens) <= lens && stat.h.consumed <= |lens|
      ensures desc.Some? ==> pc == RecvGot(desc.value) && stat.h.consumed == old(stat.h.consumed) + 1
      ensures desc.None? ==> pc == RecvEnding && |old(lens)| <= stat.h.consumed == old(stat.h.consumed) == stat.h.cached
    {
      DeviceTurn();
      RecvStartStep();
      DeviceTurn();
      desc := RecvGetStep();
    }

    // ---- the tasklet's pass ---------------------------------------------------------

    /** The tasklet unmaps the delivered buffer outside the lock. */
    method UnmapHandStep()
      requires Valid() && hand.Some?
      modifies this`hand, this`mapped, this`trace
      ensures Valid() && hand.None? && mapped == old(mapped) - {old(hand).value.paddr}
      ensures old(hand).value.paddr in old(mapped)
    {
      hide Reached;
      HandMapped(fmt, n, trace, State());
      Advance(fmt, n, trace, State(), UnmapHand);
      hand, mapped, trace := None, mapped - {hand.value.paddr}, trace + [UnmapHand];
    }

    /** The pass starts at the oldest unread status with nothing received. */
    lemma ReadsFromHere()
      requires Valid() && pc.Idle?
      ensures Received(posted, delivered, |delivered|, lens, stat.h.consumed)
    {
      StartsEmpty(fmt, n, trace, State());
    }

    method UnmapAndNext() returns (ret: int, nbytes: nat)
      requires Valid() && pc.Idle? && hand.Some? && stat.h.consumed <= |lens|
      modifies Objects()
      ensures Valid() && pc == Idle && posted == old(posted) && old(lens) <= lens && stat.h.consumed <= |lens|
      ensures ret != 0 ==>
                && hand.None? && delivered == old(delivered) && needed == old(needed)
                && DrainEnds(stat.h.consumed, lens, old(stat.h.consumed), 0, |old(lens)|)
      ensures ret == 0 ==>
                && stat.h.consumed == old(stat.h.consumed) + 1 && nbytes == lens[old(stat.h.consumed)] > 0
                && |old(delivered)| < |posted| && hand == Some(posted[|old(delivered)|])
                && delivered == old(delivered) + [Delivery(hand.value, nbytes)]
                && needed == old(needed) + 1 <= n - 2
    {
      hide Shaped, Reached, Supported;
      UnmapHandStep();
      ret, nbytes := RecvNext();
    }

    /** The receive loop of wireless_simu_irq_hal_srng_dst_dma_test. It terminates however long
        the device keeps reporting, because each delivery gives back one unit of credit. It takes
        the statuses in order until it meets a zero length or has read at least all that were there
        at the start, and keeps, in order, exactly the new deliveries that fit the buffer. */
    method Drain(maxBytes: nat) returns (list: seq<Delivery>)
      requires Valid() && pc.Idle? && hand.None?
      modifies Objects()
      ensures Valid() && pc == Idle && hand.None? && posted == old(posted)
      ensures old(delivered) <= delivered && old(lens) <= lens
      ensures Received(posted, delivered, |old(delivered)|, lens, old(stat.h.consumed))
      ensures DrainEnds(stat.h.consumed, lens, old(stat.h.consumed), |delivered| - |old(delivered)|, |old(lens)|)
      ensures (forall i :: old(stat.h.consumed) <= i < |old(lens)| ==> old(lens)[i] > 0) ==> |old(lens)| <= stat.h.consumed
      ensures list == Fitting(delivered[|old(delivered)|..], maxBytes)
      ensures needed == old(needed) + (|delivered| - |old(delivered)|)
    {
      hide Valid, Fitting, Received;
      ghost var lens0, d0, c := lens, |delivered|, stat.h.consumed;
      list := ReceiveAll(maxBytes);
      if forall i :: c <= i < |lens0| ==> lens0[i] > 0 {
        DrainReadsAll(stat.h.consumed, lens, c, |delivered| - d0, |lens0|);
      }
    }

    method ReceiveAll(maxBytes: nat) returns (list: seq<Delivery>)
      requires Valid() && pc.Idle? && hand.None?
      modifies Objects()
      ensures Valid() && pc == Idle && hand.None? && posted == old(posted)
      ensures old(delivered) <= delivered && old(lens) <= lens
      ensures Received(posted, delivered, |old(delivered)|, lens, old(stat.h.consumed))
      ensures DrainEnds(stat.h.consumed, lens, old(stat.h.consumed), |delivered| - |old(delivered)|, |old(lens)|)
      ensures list == Fitting(delivered[|old(delivered)|..], maxBytes)
      ensures needed == old(needed) + (|delivered| - |old(delivered)|)
    {
      hide Valid, Fitting, Received, Kept, DrainEnds;
      list := [];
      ghost var d0, c, seen, first := |delivered|, stat.h.consumed, lens, |lens|;
      ghost var was, queue, credit, lens0 := delivered, posted, needed, lens;
      ReadsFromHere();
      var ret: int;
      var nbytes: nat;
      ret, nbytes := RecvNext();
      ReceivedLater(posted, was, d0, seen, c, lens);
      KeptNone(delivered, d0, maxBytes);
      while ret == 0
        invariant Valid() && pc == Idle && posted == queue && was <= delivered && lens0 <= lens
        invariant d0 <= |delivered| && (ret == 0 ==> d0 < |delivered|)
        invariant Received(posted, delivered, d0, lens, c) && stat.h.consumed <= |lens|
        invariant Kept(list, delivered, d0, |delivered| - (if ret == 0 then 1 else 0), maxBytes)
        invariant ret == 0 ==>
                    && hand.Some? && needed <= n - 2 && stat.h.consumed == c + (|delivered| - d0)
                    && delivered[|delivered| - 1] == Delivery(hand.value, nbytes)
        invariant ret != 0 ==> hand.None? && DrainEnds(stat.h.consumed, lens, c, |delivered| - d0, first)
        invariant needed == credit + (|delivered| - d0)
        decreases n - 2 - needed, ret == 0
      {
        ghost var d := delivered;
        seen := lens;
        KeptNext(list, d, d0, maxBytes);
        if nbytes <= maxBytes {
          list := list + [Delivery(hand.value, nbytes)];
        }
        ret, nbytes := UnmapAndNext();
        ReceivedLater(posted, d, d0, seen, c, lens);
        if ret == 0 {
          KeptMore(list, d, delivered[|d|], d0, maxBytes);
        } else {
          DrainEndsFrom(stat.h.consumed, lens, c, |d| - d0, first, |seen|);
        }
      }
      KeptAll(list, delivered, d0, maxBytes);
    }

    /** wireless_simu_irq_hal_srng_dst_dma_test: drain, then replenish. */
    method DrainAndReplenish(maxBytes: nat, supply: nat -> Supply) returns (list: seq<Delivery>, retry: bool)
      requires Valid() && pc.Idle? && hand.None?
      modifies Objects()
      ensures Valid() && pc == Idle && hand.None?
      ensures old(delivered) <= delivered && old(lens) <= lens
      ensures Received(posted, delivered, |old(delivered)|, lens, old(stat.h.consumed))
      ensures DrainEnds(stat.h.consumed, lens, old(stat.h.consumed), |delivered| - |old(delivered)|, |old(lens)|)
      ensures list == Fitting(delivered[|old(delivered)|..], maxBytes)
      ensures Supplied(supply, old(posted), posted)
      ensures needed + |posted| == old(needed) + |old(posted)| + (|delivered| - |old(delivered)|)
      ensures retry <==> needed != 0
      ensures retry ==> Fails(supply(|posted| - |old(posted)|), mapped)
    {
      hide Shaped, Reached, Supported, Fitting;
      list := Drain(maxBytes);
      var ret := PostPipe(supply);
      retry := ret != 0 && ret != -ENOSPC;
    }

    // ---- teardown -------------------------------------------------------------------

    /** dma_unmap_single: only a live mapping may be unmapped. */
    method DmaUnmap(paddr: nat)
      requires paddr in mapped
      modifies this`mapped
      ensures mapped == old(mapped) - {paddr}
    {
      mapped := mapped - {paddr};
    }

    /** wireless_simu_hal_srng_dst_test_cleanuprx, run when nobody holds the lock or a delivered
        buffer. It frees exactly the buffers that were posted and not delivered, once each, unmaps
        each before freeing it, leaves no mapping live and every slot empty. */
    method CleanupRx() returns (freed: seq<Skb>)
      requires Valid() && pc.Idle? && hand.None?
      modifies skb, this`mapped
      ensures mapped == {} && forall i :: 0 <= i < skb.Length ==> skb[i].None?
      ensures |delivered| <= |posted| && multiset(freed) == multiset(posted[|delivered|..])
      ensures old(mapped) == set b | b in freed :: b.paddr
    {
      SlotsOwnMappings(fmt, n, trace, State());
      SlotsHoldQueue(fmt, n, trace, State());
      OwnersAre(skb[..], mapped);
      assert skb.Length == n;
      freed := CleanSlots();
    }

    method CleanSlots() returns (freed: seq<Skb>)
      requires skb.Length == n && Owners(skb[..], 0, mapped)
      modifies skb, this`mapped
      ensures mapped == {} && freed == Occupants(old(skb[..]))
      ensures forall i :: 0 <= i < skb.Length ==> skb[i].None?
    {
      ghost var s := skb[..];
      freed := [];
      for i := 0 to n
        invariant forall k :: 0 <= k < i ==> skb[k].None?
        invariant forall k :: i <= k < n ==> skb[k] == s[k]
        invariant Owners(s, i, mapped) && freed == Occupants(s[..i])
      {
        OwnersStep(s, i, mapped);
        assert s[..i + 1][..i] == s[..i];
        match skb[i]
        case None =>
        case Some(b) =>
          skb[i] := None;
          DmaUnmap(b.paddr);
          freed := freed + [b];
      }
      assert s[..n] == s;
    }
  }

  /** wireless_simu_test_dst_post_pipe on a pipe that may lack its rings, in which case there is
      nothing to do. */
  method PostPipeIfReady(pipe: RxPipe?, supply: nat -> Supply) returns (ret: int)
    requires pipe != null ==> pipe.Valid() && pipe.pc.Idle?
    modifies if pipe == null then {} else pipe.Objects()
    ensures pipe == null ==> ret == 0
    ensures pipe != null ==> pipe.Valid() && pipe.pc == Idle && (ret == 0 <==> pipe.needed == 0)
    ensures pipe != null ==>
              && Supplied(supply, old(pipe.posted), pipe.posted)
              && pipe.needed + |pipe.posted| == old(pipe.needed) + |old(pipe.posted)|
              && (ret != 0 ==>
                    var last := supply(|pipe.posted| - |old(pipe.posted)|);
                    Fails(last, pipe.mapped) && ret == if last.NoMemory? then -ENOMEM else -EIO)
  {
    if pipe == null { return 0; }
    ret := pipe.PostPipe(supply);
  }
}
