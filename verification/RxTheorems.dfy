/** What holds of the receive pipeline over every run, with the replenish timer, the tasklet
    and the device interleaved in any way. */
module RxTheorems {
  import opened Common
  import opened Bits
  import opened RingMath
  import opened Descriptors
  import opened RxPipeline
  import opened RxInvariant
  import S = SourceRing
  import D = DestRing

  // ---- runs -------------------------------------------------------------------------

  function Run(p: Pipe, evs: seq<Event>): Option<Pipe>
    decreases |evs|
  {
    if !Shaped(p) then None
    else if evs == [] then Some(p)
    else Run(Step(p, evs[0]), evs[1..])
  }

  ghost predicate Supported(fmt: Layout, n: nat) {
    ValidField(fmt.addrHi) && ValidEntries(n) && IsPow2(n) && n >= 2
  }

  lemma {:induction false} RunInv(p: Pipe, evs: seq<Event>)
    requires Inv(p)
    ensures Run(p, evs).Some? && Inv(Run(p, evs).value)
    ensures Run(p, evs).value.n == p.n && Run(p, evs).value.fmt == p.fmt
    decreases |evs|
  {
    if evs != [] {
      StepInv(p, evs[0]);
      RunInv(Step(p, evs[0]), evs[1..]);
    }
  }

  /** One more step at the end of a run. */
  lemma {:induction false} RunExtend(p: Pipe, evs: seq<Event>, ev: Event)
    requires Run(p, evs).Some? && Shaped(Run(p, evs).value) && Shaped(Step(Run(p, evs).value, ev))
    ensures Run(p, evs + [ev]) == Some(Step(Run(p, evs).value, ev))
    decreases |evs|
  {
    if evs == [] {
      assert evs + [ev] == [ev] && [ev][1..] == [];
    } else {
      assert (evs + [ev])[1..] == evs[1..] + [ev];
      RunExtend(Step(p, evs[0]), evs[1..], ev);
    }
  }

  /** Every reachable state satisfies the invariant. */
  lemma ReachableInv(fmt: Layout, n: nat, evs: seq<Event>)
    requires Supported(fmt, n)
    ensures var p := Run(Init(fmt, n), evs); p.Some? && Inv(p.value) && p.value.n == n && p.value.fmt == fmt
  {
    InitInv(fmt, n);
    RunInv(Init(fmt, n), evs);
  }

  /** The state after a run from setup. */
  ghost function StateAfter(fmt: Layout, n: nat, evs: seq<Event>): (p: Pipe)
    requires Supported(fmt, n)
    ensures Run(Init(fmt, n), evs) == Some(p) && Inv(p) && p.n == n && p.fmt == fmt
  {
    ReachableInv(fmt, n, evs);
    Run(Init(fmt, n), evs).value
  }

  // ---- refinement of a bounded FIFO queue -------------------------------------------

  /** What a client of the pipeline observes of a step: a buffer posted, a buffer delivered, or
      nothing. */
  datatype Op = Put(b: Skb) | Got(b: Skb) | Silent

  function Observe(p: Pipe, q: Pipe): Op {
    if |p.posted| < |q.posted| then Put(q.posted[|p.posted|])
    else if |p.delivered| < |q.delivered| then Got(q.delivered[|p.delivered|].skb)
    else Silent
  }

  function Trace(p: Pipe, evs: seq<Event>): seq<Op>
    decreases |evs|
  {
    if !Shaped(p) || evs == [] then []
    else [Observe(p, Step(p, evs[0]))] + Trace(Step(p, evs[0]), evs[1..])
  }

  /** The specification: a FIFO queue of bounded capacity, stopped by an illegal operation. */
  function FifoStep(cap: nat, q: seq<Skb>, op: Op): Option<seq<Skb>> {
    match op
    case Put(b) => if |q| < cap then Some(q + [b]) else None
    case Got(b) => if q != [] && q[0] == b then Some(q[1..]) else None
    case Silent => Some(q)
  }

  function Fifo(cap: nat, q: seq<Skb>, ops: seq<Op>): Option<seq<Skb>>
    decreases |ops|
  {
    if ops == [] then Some(q)
    else
      var r := FifoStep(cap, q, ops[0]);
      if r.None? then None else Fifo(cap, r.value, ops[1..])
  }

  function Queue(p: Pipe): seq<Skb>
    requires |p.delivered| <= |p.posted|
  {
    p.posted[|p.delivered|..]
  }

  /** What one step may do to the history: nothing, one post within the capacity, or one delivery
      of the oldest posted buffer. */
  ghost predicate HistoryStep(p: Pipe, q: Pipe) {
    var d, c := |p.delivered|, |p.posted|;
    && p.n >= 2 && d <= c
    && (|| (q.posted == p.posted && q.delivered == p.delivered)
        || (|q.posted| == c + 1 && q.posted[..c] == p.posted && q.delivered == p.delivered && c - d < p.n - 2)
        || (q.posted == p.posted && |q.delivered| == d + 1 && d < c && q.delivered[d].skb == p.posted[d]))
  }

  lemma StepHistory(p: Pipe, ev: Event)
    requires Inv(p)
    ensures HistoryStep(p, Step(p, ev))
  {
    hide S.Inv, S.Step, D.DstInv, D.DstStep, IsPow2, Content;
    if ev.RecvTake? && p.pc.RecvGot? {
      TakeReads(p);
    }
  }

  /** Such a change is a legal operation of the queue. */
  lemma ObserveLegal(p: Pipe, q: Pipe)
    requires HistoryStep(p, q)
    ensures |q.delivered| <= |q.posted|
    ensures FifoStep(p.n - 2, Queue(p), Observe(p, q)) == Some(Queue(q))
  {
    var d, c := |p.delivered|, |p.posted|;
    if |q.posted| == c + 1 {
      assert Queue(q) == Queue(p) + [q.posted[c]];
    } else if |q.delivered| == d + 1 {
      assert Queue(p)[0] == p.posted[d] && Queue(q) == Queue(p)[1..];
    }
  }

  lemma StepRefines(p: Pipe, ev: Event) returns (q: Pipe)
    requires Inv(p)
    ensures q == Step(p, ev) && Inv(q) && q.n == p.n
    ensures FifoStep(p.n - 2, Queue(p), Observe(p, q)) == Some(Queue(q))
  {
    q := Step(p, ev);
    StepInv(p, ev);
    StepHistory(p, ev);
    ObserveLegal(p, q);
  }

  /** Every step of the run is legal for the queue. */
  ghost predicate LegalRun(p: Pipe, evs: seq<Event>)
    decreases |evs|
  {
    && Shaped(p) && |p.delivered| <= |p.posted| && p.n >= 2
    && (evs != [] ==>
          var q := Step(p, evs[0]);
          && q.n == p.n && LegalRun(q, evs[1..])
          && FifoStep(p.n - 2, Queue(p), Observe(p, q)) == Some(Queue(q)))
  }

  lemma {:induction false} RunsAreLegal(p: Pipe, evs: seq<Event>)
    requires Inv(p)
    ensures LegalRun(p, evs)
    decreases |evs|
  {
    if evs != [] {
      var q := StepRefines(p, evs[0]);
      RunsAreLegal(q, evs[1..]);
    }
  }

  lemma {:induction false} LegalRunRefines(p: Pipe, evs: seq<Event>)
    requires LegalRun(p, evs)
    ensures var z := Run(p, evs);
            && z.Some? && |z.value.delivered| <= |z.value.posted|
            && Fifo(p.n - 2, Queue(p), Trace(p, evs)) == Some(Queue(z.value))
    decreases |evs|
  {
    if evs != [] {
      var q := Step(p, evs[0]);
      LegalRunRefines(q, evs[1..]);
      assert Trace(p, evs)[1..] == Trace(q, evs[1..]);
    }
  }

  /** In every interleaving, what the pipeline's clients observe is a legal run of a FIFO queue
      of capacity n - 2 that starts empty, and the queue's final contents are the buffers still
      posted. */
  lemma RefinesFifo(fmt: Layout, n: nat, evs: seq<Event>)
    requires Supported(fmt, n)
    ensures var p := Run(Init(fmt, n), evs);
            && p.Some? && |p.value.delivered| <= |p.value.posted|
            && Fifo(n - 2, [], Trace(Init(fmt, n), evs)) == Some(Queue(p.value))
  {
    InitInv(fmt, n);
    RunsAreLegal(Init(fmt, n), evs);
    LegalRunRefines(Init(fmt, n), evs);
  }

  // ---- room ------------------------------------------------------------------------

  ghost predicate CanRunOutOfSpace(fmt: Layout, n: nat)
    requires ValidEntries(n)
  {
    exists evs: seq<Event> :: OutOfSpace(Run(Init(fmt, n), evs))
  }

  predicate OutOfSpace(p: Option<Pipe>) {
    p.Some? && p.value.pc.NoSpace?
  }

  /** With one entry the credit n - 2 wraps to 2^32 - 1 and the first post finds no space. */
  lemma OneEntryRunsOut(fmt: Layout, b: Skb)
    requires ValidField(fmt.addrHi)
    ensures Init(fmt, 1).needed == TWO32 - 1
    ensures OutOfSpace(Run(Init(fmt, 1), [LockPost, MapOk(b), EnqBegin, EnqCheck]))
  {
    var p0 := Init(fmt, 1);
    var p1 := Step(p0, LockPost);
    var p2 := Step(p1, MapOk(b));
    var p3 := Step(p2, EnqBegin);
    var p4 := Step(p3, EnqCheck);
    assert p3.pc == Begun(b);
    assert S.NumFree(p3.post.r, p3.post.r.cachedTp) == 0;
    assert p4.pc == NoSpace(b);
    assert Run(p4, []) == Some(p4);
    assert Run(p3, [EnqCheck]) == Some(p4);
    assert Run(p2, [EnqBegin, EnqCheck]) == Some(p4) by { assert [EnqBegin, EnqCheck][1..] == [EnqCheck]; }
    assert Run(p1, [MapOk(b), EnqBegin, EnqCheck]) == Some(p4) by {
      assert [MapOk(b), EnqBegin, EnqCheck][1..] == [EnqBegin, EnqCheck];
    }
    var all := [LockPost, MapOk(b), EnqBegin, EnqCheck];
    assert all[1..] == [MapOk(b), EnqBegin, EnqCheck];
  }

  /** enqueue_pipe can return -ENOSPC to post_pipe, which calls it only with credit left, if
      and only if the ring has a single entry. */
  lemma NoSpaceIff(fmt: Layout, n: nat)
    requires ValidField(fmt.addrHi) && ValidEntries(n) && IsPow2(n)
    ensures CanRunOutOfSpace(fmt, n) <==> n == 1
  {
    if n == 1 {
      OneEntryRunsOut(fmt, Skb(0, 0));
    } else {
      forall evs: seq<Event> ensures !OutOfSpace(Run(Init(fmt, n), evs)) {
        ReachableInv(fmt, n, evs);
      }
    }
  }

  /** The status ring never fills, so an equal tail and head always mean that it is empty. */
  lemma StatusNeverFull(fmt: Layout, n: nat, evs: seq<Event>)
    requires Supported(fmt, n)
    ensures var p := StateAfter(fmt, n, evs);
            && |p.stat.h.log| - p.stat.h.consumed <= n - 2
            && (p.stat.r.tp == p.stat.r.hpCell <==> |p.stat.h.log| == p.stat.h.consumed)
  {
    var p := StateAfter(fmt, n, evs);
    OffsetsEqual(p.n, STATUS_WORDS, p.stat.h.consumed, |p.stat.h.log|);
  }

  // ---- credit, window and lockstep --------------------------------------------------

  /** The distance between two masked indices is the distance between their positions. */
  lemma IndexDistance(a: nat, b: nat, n: nat)
    requires n >= 1 && a <= b < a + n
    ensures (b % n - a % n) % n == b - a
  {
    ModWindow(a, b, n);
    var x := b % n - a % n;
    if x >= 0 {
      ModSmall(b - a, n);
    } else {
      assert x == (b - a) - n;
      ModShift(b - a, n);
    }
  }

  lemma ModShift(x: nat, n: nat)
    requires x < n
    ensures (x - n) % n == x
  {
    var q, r := (x - n) / n, (x - n) % n;
    assert x - n == n * q + r;
    assert n * (q + 1) == x - r;
  }

  /** The positions behind the pointers and indices, outside a half posted or half read entry. */
  lemma Positions(p: Pipe)
    requires Inv(p)
    ensures p.wi == |p.posted| % p.n && p.si == |p.delivered| % p.n && |p.skb| == p.n
    ensures |p.delivered| <= |p.posted| && p.needed + (|p.posted| - |p.delivered|) == p.n - 2
    ensures Window(p.n, p.skb, p.posted, |p.delivered|)
    ensures !p.pc.Filling? ==> p.post.r.hp == Offset(p.n, POST_WORDS, |p.posted|)
    ensures p.stat.r.tp == Offset(p.n, STATUS_WORDS, p.stat.h.consumed)
    ensures !p.pc.RecvGot? ==> p.stat.h.consumed >= |p.delivered|
  {
  }

  /** Credit plus the circular distance from sw_index to write_index is n - 2, and skb[i] is
      occupied exactly for i in that circular window. */
  lemma CreditConserved(fmt: Layout, n: nat, evs: seq<Event>, i: nat)
    requires Supported(fmt, n) && i < n
    ensures var p := StateAfter(fmt, n, evs);
            && p.needed + (p.wi - p.si) % n == n - 2
            && (p.skb[i].Some? <==> (i - p.si) % n < (p.wi - p.si) % n)
  {
    hide Inv;
    var p := StateAfter(fmt, n, evs);
    Positions(p);
    var d, c := |p.delivered|, |p.posted|;
    IndexDistance(d, c, n);
    var off := if i >= p.si then i - p.si else i - p.si + n;
    var j := d + off;
    ModWindow(d, j, n);
    assert j % n == i;
    IndexDistance(d, j, n);
    assert SlotHolds(n, p.skb, p.posted, j);
  }

  lemma {:induction false} ModAdd(a: nat, z: nat, n: nat)
    requires n >= 1
    ensures (a % n + z) % n == (a + z) % n
    decreases z
  {
    if z == 0 {
      ModSmall(a % n, n);
    } else {
      ModAdd(a, z - 1, n);
      ModStep(a % n + z - 1, n);
      ModStep(a + z - 1, n);
    }
  }

  /** The word pointers and the masked indices stay in lockstep: whenever no entry is half
      posted or half read, the posting head is E * write_index and the status tail is
      E * ((sw_index + zero-length statuses read) mod n). */
  lemma Lockstep(fmt: Layout, n: nat, evs: seq<Event>)
    requires Supported(fmt, n)
    ensures var p := StateAfter(fmt, n, evs);
            var zeros := p.stat.h.consumed - |p.delivered|;
            && (!p.pc.Filling? ==> p.post.r.hp == POST_WORDS * p.wi)
            && (!p.pc.RecvGot? ==> zeros >= 0 && p.stat.r.tp == STATUS_WORDS * ((p.si + zeros) % n))
  {
    hide Inv;
    var p := StateAfter(fmt, n, evs);
    Positions(p);
    if !p.pc.RecvGot? {
      ModAdd(|p.delivered|, p.stat.h.consumed - |p.delivered|, n);
    }
  }

  // ---- what the device reads --------------------------------------------------------

  /** At every point, also between two word stores of the host, each entry the device may read
      is the complete descriptor of the buffer posted at that position, and it decodes to the
      buffer's address whenever the address fits the layout. */
  lemma DeviceReads(fmt: Layout, n: nat, evs: seq<Event>, i: nat)
    requires Supported(fmt, n) && ValidLayout(fmt)
    requires var h := StateAfter(fmt, n, evs).post.h; h.fetched <= i < h.published
    ensures var p := StateAfter(fmt, n, evs);
            i < |p.posted| && Offset(n, POST_WORDS, i) + POST_WORDS <= |p.post.r.mem|
    ensures var p := StateAfter(fmt, n, evs);
            var w, addr := Entry(p.post.r.mem, POST_WORDS, Offset(n, POST_WORDS, i)), p.posted[i].paddr;
            && w == DstDesc(fmt, addr)
            && (DecodeAddr(fmt, w[0], w[1]) == addr <==> addr < Pow2(fmt.shift + Width(fmt.addrHi)))
  {
    var p := StateAfter(fmt, n, evs);
    OffsetInRing(n, POST_WORDS, i);
    assert S.Intact(p.post, i);
    DstDescRoundTrip(fmt, p.posted[i].paddr);
  }

  // ---- lengths ---------------------------------------------------------------------

  /** The index of the k-th non-zero element. */
  function NthPositive(s: seq<nat>, k: nat): nat
    requires k < |Positives(s)|
  {
    var t := s[..|s| - 1];
    if k < |Positives(t)| then NthPositive(t, k) else |s| - 1
  }

  lemma {:induction false} NthPositiveIs(s: seq<nat>, k: nat)
    requires k < |Positives(s)|
    ensures NthPositive(s, k) < |s| && s[NthPositive(s, k)] == Positives(s)[k]
    decreases |s|
  {
    var t := s[..|s| - 1];
    if k < |Positives(t)| { NthPositiveIs(t, k); }
  }

  lemma {:induction false} PositivesCount(s: seq<nat>)
    ensures |Positives(s)| <= |s|
    ensures |Positives(s)| == |s| <==> forall i :: 0 <= i < |s| ==> s[i] > 0
    decreases |s|
  {
    if s != [] {
      var t := s[..|s| - 1];
      PositivesCount(t);
      assert forall i :: 0 <= i < |t| ==> t[i] == s[i];
    }
  }

  lemma {:induction false} PositivesPrefix(s: seq<nat>, m: nat)
    requires m <= |s| && forall i :: 0 <= i < m ==> s[i] > 0
    ensures |Positives(s)| >= m
    decreases |s|
  {
    if s != [] {
      var t := s[..|s| - 1];
      PositivesPrefix(t, if m < |s| then m else m - 1);
    }
  }

  lemma {:induction false} NthPositiveAt(s: seq<nat>, k: nat)
    requires k < |Positives(s)|
    ensures NthPositive(s, k) >= k
    ensures NthPositive(s, k) == k <==> forall i :: 0 <= i <= k ==> i < |s| && s[i] > 0
    decreases |s|
  {
    var t := s[..|s| - 1];
    PositivesCount(s);
    PositivesCount(t);
    if k < |Positives(t)| {
      NthPositiveAt(t, k);
      assert forall i :: 0 <= i < |t| ==> t[i] == s[i];
    } else if k < |t| && forall i :: 0 <= i <= k ==> s[i] > 0 {
      assert forall i :: 0 <= i <= k ==> t[i] == s[i];
      PositivesPrefix(t, k + 1);
      assert false;
    }
  }

  /** The k-th delivery is the k-th posted buffer. It takes its length from status k, the one the
      device reported for that very buffer, if and only if none of the first k + 1 statuses has
      length zero; otherwise it takes it from a later buffer's status. */
  lemma LengthBelongsToBuffer(fmt: Layout, n: nat, evs: seq<Event>, k: nat)
    requires Supported(fmt, n) && k < |StateAfter(fmt, n, evs).delivered|
    ensures var p := StateAfter(fmt, n, evs);
            && k < |p.posted| && p.delivered[k].skb == p.posted[k]
            && k < |Positives(p.lens[..Read(p)])|
            && var j := NthPositive(p.lens[..Read(p)], k);
            && k <= j < |p.lens| && p.delivered[k].nbytes == p.lens[j]
            && (j == k <==> forall i :: 0 <= i <= k ==> p.lens[i] > 0)
  {
    var p := StateAfter(fmt, n, evs);
    var s := p.lens[..Read(p)];
    NthPositiveIs(s, k);
    NthPositiveAt(s, k);
    PositivesCount(s);
    assert forall i :: 0 <= i < |s| ==> s[i] == p.lens[i];
  }

  // ---- mappings --------------------------------------------------------------------

  lemma {:induction false} AddrCount(live: seq<Skb>, mapped: set<nat>)
    requires Dma(live, mapped)
    ensures |mapped| == |live|
    decreases |live|
  {
    if live == [] {
      assert mapped == {};
    } else {
      assert live == [live[0]] + live[1..];
      DmaShrink(live[1..], mapped, live[0]);
      AddrCount(live[1..], mapped - {live[0].paddr});
    }
  }

  /** Live DMA mappings are exactly the posted window plus the buffer in the tasklet's hand plus
      the one being enqueued, each mapped once: with allocation and mapping failures anywhere
      their number is n - 2 - needed plus the buffers in transit. */
  lemma MappingsConserved(fmt: Layout, n: nat, evs: seq<Event>)
    requires Supported(fmt, n)
    ensures var p := StateAfter(fmt, n, evs);
            && p.mapped == (set b | b in Live(p) :: b.paddr)
            && |p.mapped| == (n - 2 - p.needed) + |OptSeq(p.hand)| + |PcBuffer(p.pc)|
            && (p.hand.Some? ==> p.hand.value.paddr in p.mapped)
  {
    var p := StateAfter(fmt, n, evs);
    AddrCount(Live(p), p.mapped);
    if p.hand.Some? { UnmapContent(p); }
  }
}
