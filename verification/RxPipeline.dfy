/** The receive pipeline: a source-direction ring posts empty buffers, a destination-direction
    ring reports how many bytes the device put into each. A side array of buffers, two masked
    indices and a credit counter tie the two together.

    The pipeline is a transition system. Critical sections run under the pipe lock, so one
    program counter describes whoever holds it (the replenish timer or the tasklet); the device
    and the tasklet's unmapping outside the lock interleave with every one of its sub-steps. */
module RxPipeline {
  import opened Common
  import opened Bits
  import opened RingMath
  import opened Descriptors
  import S = SourceRing
  import D = DestRing

  const POST_WORDS: nat := 3     // sizeof(struct hal_test_dst) >> 2
  const STATUS_WORDS: nat := 2   // sizeof(struct hal_test_dst_status) >> 2

  /** A receive buffer and the bus address recorded in its control block. */
  datatype Skb = Skb(id: nat, paddr: nat)

  datatype Delivery = Delivery(skb: Skb, nbytes: nat)

  /** Where the holder of the pipe lock stands. */
  datatype Pc =
    | Idle                       // lock free
    | Posting                    // post_pipe: loop head
    | Mapped(b: Skb)             // enqueue_pipe entered with a mapped buffer
    | Begun(b: Skb)              // posting ring: tail cached
    | Filling(b: Skb, k: nat)    // descriptor obtained, k of its words written
    | Publishing                 // slot, index and credit updated, head not yet published
    | NoSpace(b: Skb)            // -ENOSPC decided
    | Undo(b: Skb)               // -ENOSPC returned to post_pipe
    | RecvLocked                 // recv_next entered
    | RecvBegun                  // status ring: head cached
    | RecvGot(off: nat)          // status descriptor obtained, not yet read
    | RecvEnding                 // tail not yet published

  datatype Pipe = Pipe(
    fmt: Layout, n: nat, post: S.Sys, stat: D.DstSys,
    wi: nat, si: nat, needed: nat, skb: seq<Option<Skb>>,
    pc: Pc,
    hand: Option<Skb>,           // delivered to the tasklet, not yet unmapped
    mapped: set<nat>,            // live DMA mappings
    // history
    posted: seq<Skb>, lens: seq<nat>, delivered: seq<Delivery>)

  datatype Event =
    | LockPost | PostExit | MapOk(b: Skb)
    | EnqBegin | EnqCheck | EnqStore | EnqCommit | EnqEnd | UndoUnmap
    | LockRecv | RecvBegin | RecvGet | RecvTake | RecvEnd
    | UnmapHand
    | DevFetch
    | DevStatus(len: nat, flag: nat)

  predicate ValidEntries(n: nat) {
    n >= 1 && POST_WORDS * n < 0x10_0000
  }

  /** wireless_simu_hal_srng_dst_test_init. */
  function Init(fmt: Layout, n: nat): Pipe
    requires ValidEntries(n)
  {
    Pipe(fmt, n, S.Init(n, POST_WORDS), D.DstInit(n, STATUS_WORDS), 0, 0, Sub32(n, 2),
         seq(n, _ => None), Idle, None, {}, [], [], [])
  }

  predicate Shaped(p: Pipe) {
    && ValidField(p.fmt.addrHi) && ValidEntries(p.n)
    && S.Shaped(p.post) && p.post.r.n == p.n && p.post.r.e == POST_WORDS
    && D.DstShaped(p.stat) && p.stat.r.n == p.n && p.stat.r.e == STATUS_WORDS
    && |p.skb| == p.n && p.wi < p.n && p.si < p.n
  }

  // ---- steps ------------------------------------------------------------------------

  /** The check and the grant in enqueue_pipe; both failures give -ENOSPC. */
  function Check(p: Pipe, b: Skb): Pipe
    requires Shaped(p)
  {
    if S.NumFree(p.post.r, p.post.r.cachedTp) < 1 || !S.GetSucceeds(p.post.r) then p.(pc := NoSpace(b))
    else p.(post := S.Step(p.post, S.Get), pc := Filling(b, 0))
  }

  function StoreNext(p: Pipe, b: Skb, k: nat): Pipe
    requires Shaped(p) && k < POST_WORDS && p.post.h.granted >= 1
  {
    p.(post := S.Step(p.post, S.Store(p.post.h.granted - 1, k, DstDesc(p.fmt, b.paddr)[k])),
       pc := Filling(b, k + 1))
  }

  function Commit(p: Pipe, b: Skb): Pipe
    requires Shaped(p)
  {
    p.(skb := p.skb[p.wi := Some(b)], wi := And(p.wi + 1, p.n - 1), needed := Sub32(p.needed, 1),
       pc := Publishing, posted := p.posted + [b])
  }

  /** recv_next from reading the length to updating the credit. A zero length takes the error
      exit: the status is consumed, nothing else changes. */
  function Take(p: Pipe, off: nat): Pipe
    requires Shaped(p) && off < |p.stat.r.mem|
  {
    var nbytes := p.stat.r.mem[off];
    if nbytes == 0 then p.(pc := RecvEnding)
    else
      p.(hand := p.skb[p.si], skb := p.skb[p.si := None], si := And(p.si + 1, p.n - 1),
         needed := Add32(p.needed, 1), pc := RecvEnding,
         delivered := match p.skb[p.si]
                      case Some(b) => p.delivered + [Delivery(b, nbytes)]
                      case None => p.delivered)
  }

  /** One step. An event whose guard does not hold leaves the state unchanged. */
  function Step(p: Pipe, ev: Event): (q: Pipe)
    requires Shaped(p)
    ensures q.n == p.n && q.fmt == p.fmt
  {
    match ev
    case LockPost => if p.pc.Idle? then p.(pc := Posting) else p
    case PostExit => if p.pc.Posting? then p.(pc := Idle) else p
    case MapOk(b) =>
      if p.pc.Posting? && p.needed > 0 && b.paddr !in p.mapped
      then p.(pc := Mapped(b), mapped := p.mapped + {b.paddr}) else p
    case EnqBegin => if p.pc.Mapped? then p.(post := S.Step(p.post, S.Begin), pc := Begun(p.pc.b)) else p
    case EnqCheck => if p.pc.Begun? then Check(p, p.pc.b) else p
    case EnqStore =>
      if p.pc.Filling? && p.pc.k < POST_WORDS && p.post.h.granted >= 1
      then StoreNext(p, p.pc.b, p.pc.k) else p
    case EnqCommit => if p.pc.Filling? && p.pc.k == POST_WORDS then Commit(p, p.pc.b) else p
    case EnqEnd =>
      if p.pc.Publishing? then p.(post := S.Step(p.post, S.End), pc := Posting)
      else if p.pc.NoSpace? then p.(post := S.Step(p.post, S.End), pc := Undo(p.pc.b))
      else p
    case UndoUnmap => if p.pc.Undo? then p.(pc := Idle, mapped := p.mapped - {p.pc.b.paddr}) else p
    case LockRecv => if p.pc.Idle? && p.hand.None? then p.(pc := RecvLocked) else p
    case RecvBegin => if p.pc.RecvLocked? then p.(stat := D.DstStep(p.stat, D.DBegin), pc := RecvBegun) else p
    case RecvGet =>
      if !p.pc.RecvBegun? then p
      else if p.stat.r.tp == p.stat.r.cachedHp then p.(pc := RecvEnding)
      else p.(stat := D.DstStep(p.stat, D.DGet), pc := RecvGot(p.stat.r.tp))
    case RecvTake => if p.pc.RecvGot? && p.pc.off < |p.stat.r.mem| then Take(p, p.pc.off) else p
    case RecvEnd => if p.pc.RecvEnding? then p.(stat := D.DstStep(p.stat, D.DEnd), pc := Idle) else p
    case UnmapHand =>
      if p.hand.Some? then p.(hand := None, mapped := p.mapped - {p.hand.value.paddr}) else p
    case DevFetch => p.(post := S.Step(p.post, S.Fetch))
    case DevStatus(len, flag) =>
      // the device reports only buffers it has fetched, one status each
      if |p.lens| < p.post.h.fetched
      then p.(stat := D.DstStep(p.stat, D.Produce([len, flag])), lens := p.lens + [len]) else p
  }

  // ---- the invariant ----------------------------------------------------------------

  /** The non-zero lengths of a sequence of statuses, in order. */
  function Positives(s: seq<nat>): seq<nat> {
    if s == [] then []
    else Positives(s[..|s| - 1]) + (if s[|s| - 1] > 0 then [s[|s| - 1]] else [])
  }

  /** Statuses whose length has been read. */
  function Read(p: Pipe): int {
    p.stat.h.consumed - (if p.pc.RecvGot? then 1 else 0)
  }

  ghost predicate Base(p: Pipe) {
    Shaped(p) && IsPow2(p.n) && p.n >= 2 && S.Inv(p.post) && D.DstInv(p.stat)
  }

  /** Indices, counters and credit, all against the number of buffers posted and delivered. */
  ghost predicate Counts(p: Pipe)
    requires Base(p)
  {
    && |p.delivered| <= |p.posted|
    && p.needed + (|p.posted| - |p.delivered|) == p.n - 2
    && p.wi == |p.posted| % p.n && p.si == |p.delivered| % p.n
    && p.post.h.granted == |p.posted| + (if p.pc.Filling? then 1 else 0)
    && p.post.h.published == |p.posted| - (if p.pc.Publishing? then 1 else 0)
    && |p.lens| == |p.stat.h.log| <= p.post.h.fetched
    && |p.delivered| <= Read(p)
  }

  /** What each program point knows. -ENOSPC is never decided. */
  ghost predicate AtPc(p: Pipe)
    requires Base(p)
  {
    && !p.pc.NoSpace? && !p.pc.Undo?
    && (p.pc.Mapped? || p.pc.Begun? || p.pc.Filling? ==> p.needed > 0)
    && (p.pc.Begun? ==> p.post.h.cached >= |p.delivered|)
    && (p.pc.RecvLocked? || p.pc.RecvBegun? || p.pc.RecvGot? ==> p.hand.None?)
    && (p.pc.RecvGot? ==> p.stat.h.consumed >= 1 && p.pc.off == Offset(p.n, STATUS_WORDS, p.stat.h.consumed - 1))
  }

  /** skb[] holds exactly the posted, undelivered buffers, each in its position's slot. */
  ghost predicate Window(n: nat, skb: seq<Option<Skb>>, posted: seq<Skb>, d: nat)
    requires |skb| == n >= 1
  {
    forall j: nat :: d <= j < d + n ==> SlotHolds(n, skb, posted, j)
  }

  ghost predicate SlotHolds(n: nat, skb: seq<Option<Skb>>, posted: seq<Skb>, j: nat)
    requires |skb| == n >= 1
  {
    skb[j % n] == (if j < |posted| then Some(posted[j]) else None)
  }

  /** The device's status entries carry the lengths it reported. */
  ghost predicate Statuses(lens: seq<nat>, log: seq<seq<nat>>) {
    && |lens| == |log|
    && forall i :: 0 <= i < |lens| ==> |log[i]| == STATUS_WORDS && log[i][0] == lens[i]
  }

  /** The k-th delivery is the k-th posted buffer with the k-th non-zero status length. */
  ghost predicate Deliveries(read: seq<nat>, posted: seq<Skb>, delivered: seq<Delivery>) {
    && |Positives(read)| == |delivered| <= |posted|
    && forall k :: 0 <= k < |delivered| ==> delivered[k] == Delivery(posted[k], Positives(read)[k])
  }

  /** Every published descriptor is that of its buffer. */
  ghost predicate Published(fmt: Layout, log: seq<seq<nat>>, posted: seq<Skb>)
    requires ValidField(fmt.addrHi)
  {
    && |log| <= |posted|
    && forall i :: 0 <= i < |log| ==> log[i] == DstDesc(fmt, posted[i].paddr)
  }

  /** A descriptor in the making: its buffer, its position and the number of words written. */
  datatype Draft = Clean | Draft(b: Skb, i: nat, k: nat)

  function DraftOf(p: Pipe): Draft {
    match p.pc
    case Filling(b, k) => Draft(b, |p.posted|, k)
    case Publishing => if p.posted == [] then Clean else Draft(p.posted[|p.posted| - 1], |p.posted| - 1, POST_WORDS)
    case _ => Clean
  }

  /** It agrees with its buffer on the words written so far. */
  ghost predicate Drafted(fmt: Layout, n: nat, mem: seq<nat>, d: Draft)
    requires ValidField(fmt.addrHi) && n >= 1 && |mem| == POST_WORDS * n
  {
    match d
    case Clean => true
    case Draft(b, i, k) =>
      OffsetInRing(n, POST_WORDS, i);
      k <= POST_WORDS
      && forall j :: 0 <= j < k ==> mem[Offset(n, POST_WORDS, i) + j] == DstDesc(fmt, b.paddr)[j]
  }

  function OptSeq(o: Option<Skb>): seq<Skb> {
    match o case None => [] case Some(b) => [b]
  }

  function PcBuffer(pc: Pc): seq<Skb> {
    match pc
    case Mapped(b) => [b]
    case Begun(b) => [b]
    case Filling(b, _) => [b]
    case NoSpace(b) => [b]
    case Undo(b) => [b]
    case _ => []
  }

  /** The buffers that own a DMA mapping, oldest first: the one handed over, the posted window,
      the one being enqueued. */
  function Live(p: Pipe): seq<Skb>
    requires |p.delivered| <= |p.posted|
  {
    OptSeq(p.hand) + p.posted[|p.delivered|..] + PcBuffer(p.pc)
  }

  /** Live mappings are exactly those of the given buffers, one each. */
  ghost predicate Dma(live: seq<Skb>, mapped: set<nat>) {
    && (forall i, j :: 0 <= i < j < |live| ==> live[i].paddr != live[j].paddr)
    && mapped == set b | b in live :: b.paddr
  }

  ghost predicate Core(p: Pipe) {
    Base(p) && Counts(p) && AtPc(p)
  }

  predicate Sane(p: Pipe) {
    Shaped(p) && |p.delivered| <= |p.posted| && 0 <= Read(p) <= |p.lens|
  }

  ghost predicate Content(p: Pipe)
    requires Sane(p)
  {
    && Window(p.n, p.skb, p.posted, |p.delivered|)
    && Statuses(p.lens, p.stat.h.log)
    && Deliveries(p.lens[..Read(p)], p.posted, p.delivered)
    && Published(p.fmt, p.post.h.log, p.posted)
    && Drafted(p.fmt, p.n, p.post.r.mem, DraftOf(p))
    && Dma(Live(p), p.mapped)
  }

  ghost predicate Inv(p: Pipe) {
    Core(p) && Sane(p) && Content(p)
  }
}
