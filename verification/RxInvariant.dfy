/** Every step of the receive pipeline keeps its invariant. */
module RxInvariant {
  import opened Common
  import opened Bits
  import opened RingMath
  import opened Descriptors
  import opened RxPipeline
  import S = SourceRing
  import D = DestRing

  lemma InitInv(fmt: Layout, n: nat)
    requires ValidField(fmt.addrHi) && ValidEntries(n) && IsPow2(n) && n >= 2
    ensures Inv(Init(fmt, n))
  {
    var p := Init(fmt, n);
    S.InitInv(n, POST_WORDS);
    D.DstInitInv(n, STATUS_WORDS);
    ModSmall(0, n);
    forall j: nat | j < n ensures SlotHolds(n, p.skb, [], j) { ModSmall(j, n); }
  }

  // ---- indices, counters and program points -----------------------------------------

  lemma LockCore(p: Pipe, ev: Event)
    requires Core(p) && (ev.LockPost? || ev.PostExit? || ev.LockRecv? || ev.MapOk? || ev.UnmapHand?)
    ensures Core(Step(p, ev))
  {
  }

  lemma EnqBeginCore(p: Pipe)
    requires Core(p) && p.pc.Mapped?
    ensures Core(Step(p, EnqBegin))
  {
    S.StepInv(p.post, S.Begin);
  }

  /** With credit left and a tail no older than the deliveries, the posting ring has room. */
  lemma RoomToPost(p: Pipe)
    requires Core(p) && p.pc.Begun?
    ensures S.NumFree(p.post.r, p.post.r.cachedTp) >= 2 && S.GetSucceeds(p.post.r)
  {
    S.NumFreeExact(p.post);
  }

  lemma EnqCheckCore(p: Pipe)
    requires Core(p) && p.pc.Begun?
    ensures Core(Step(p, EnqCheck))
    ensures Step(p, EnqCheck).pc == Filling(p.pc.b, 0)
  {
    RoomToPost(p);
    S.StepInv(p.post, S.Get);
  }

  lemma EnqStoreCore(p: Pipe)
    requires Core(p) && p.pc.Filling? && p.pc.k < POST_WORDS
    ensures Core(StoreNext(p, p.pc.b, p.pc.k))
  {
    S.StoreEffect(p.post, p.pc.k, DstDesc(p.fmt, p.pc.b.paddr)[p.pc.k]);
  }

  lemma CommitCore(p: Pipe)
    requires Core(p) && p.pc.Filling?
    ensures Core(Commit(p, p.pc.b))
  {
    IndexStep(|p.posted|, p.n);
    Dec32(p.needed);
  }

  lemma EnqEndCore(p: Pipe)
    requires Core(p) && p.pc.Publishing?
    ensures Core(Step(p, EnqEnd))
  {
    S.EndEffect(p.post);
  }

  lemma RecvBeginCore(p: Pipe)
    requires Core(p) && p.pc.RecvLocked?
    ensures Core(Step(p, RecvBegin))
  {
    D.DstStepInv(p.stat, D.DBegin);
  }

  lemma RecvGetCore(p: Pipe)
    requires Core(p) && p.pc.RecvBegun?
    ensures Core(Step(p, RecvGet))
  {
    D.DstGetExact(p.stat);
    D.DstStepInv(p.stat, D.DGet);
  }

  lemma TakeCore(p: Pipe)
    requires Core(p) && p.pc.RecvGot? && p.pc.off < |p.stat.r.mem|
    requires |p.delivered| < |p.posted| && p.skb[p.si].Some?
    ensures Core(Take(p, p.pc.off))
  {
    hide S.Inv, D.DstInv, IsPow2;
    IndexStep(|p.delivered|, p.n);
    Inc32(p.needed);
  }

  lemma RecvEndCore(p: Pipe)
    requires Core(p) && p.pc.RecvEnding?
    ensures Core(Step(p, RecvEnd))
  {
    D.DstStepInv(p.stat, D.DEnd);
  }

  /** A fetch moves only the device's tail. */
  lemma FetchMoves(y: S.Sys)
    requires S.Inv(y)
    ensures var z := S.Step(y, S.Fetch);
            && S.Inv(z) && z.h == y.h.(fetched := z.h.fetched) && z.h.fetched >= y.h.fetched
  {
    S.FetchPreserves(y);
  }

  lemma DevFetchCore(p: Pipe)
    requires Core(p)
    ensures Core(Step(p, DevFetch))
  {
    hide S.Inv, S.Step, D.DstInv, IsPow2;
    FetchMoves(p.post);
  }

  /** A device that reports only fetched buffers finds room in the status ring without
      looking at the host's tail. */
  lemma RoomToReport(p: Pipe)
    requires Core(p) && |p.lens| < p.post.h.fetched
    ensures D.Room(p.stat)
  {
  }

  lemma DevStatusCore(p: Pipe, len: nat, flag: nat)
    requires Core(p)
    ensures Core(Step(p, DevStatus(len, flag)))
  {
    if |p.lens| < p.post.h.fetched {
      RoomToReport(p);
      D.DstStepInv(p.stat, D.Produce([len, flag]));
    }
  }

  // ---- contents ---------------------------------------------------------------------

  lemma DmaGrow(live: seq<Skb>, mapped: set<nat>, b: Skb)
    requires Dma(live, mapped) && b.paddr !in mapped
    ensures Dma(live + [b], mapped + {b.paddr})
  {
    assert forall c :: c in live ==> c.paddr in mapped;
  }

  lemma DmaShrink(live: seq<Skb>, mapped: set<nat>, b: Skb)
    requires Dma([b] + live, mapped)
    ensures b.paddr in mapped && Dma(live, mapped - {b.paddr})
  {
    var old' := [b] + live;
    assert old'[0] == b;
    assert forall i :: 0 <= i < |live| ==> live[i] == old'[i + 1];
    assert forall c :: c in live ==> c in old' && c.paddr != b.paddr;
  }

  lemma DraftGrows(fmt: Layout, n: nat, mem: seq<nat>, d: Draft, v: nat)
    requires ValidField(fmt.addrHi) && n >= 1 && |mem| == POST_WORDS * n && d.Draft? && Drafted(fmt, n, mem, d)
    requires d.k < POST_WORDS && v == DstDesc(fmt, d.b.paddr)[d.k]
    requires Offset(n, POST_WORDS, d.i) + d.k < |mem|
    ensures Drafted(fmt, n, mem[Offset(n, POST_WORDS, d.i) + d.k := v], d.(k := d.k + 1))
  {
  }

  lemma WindowGrows(n: nat, skb: seq<Option<Skb>>, posted: seq<Skb>, d: nat, b: Skb)
    requires |skb| == n >= 1 && d <= |posted| < d + n && Window(n, skb, posted, d)
    ensures Window(n, skb[|posted| % n := Some(b)], posted + [b], d)
  {
    var c := |posted|;
    var skb', posted' := skb[c % n := Some(b)], posted + [b];
    forall j: nat | d <= j < d + n ensures SlotHolds(n, skb', posted', j) {
      assert SlotHolds(n, skb, posted, j);
      if j < c { ModWindow(j, c, n); } else { ModWindow(c, j, n); }
    }
  }

  lemma WindowShrinks(n: nat, skb: seq<Option<Skb>>, posted: seq<Skb>, d: nat)
    requires |skb| == n >= 1 && d < |posted| <= d + n && Window(n, skb, posted, d)
    ensures Window(n, skb[d % n := None], posted, d + 1)
  {
    var skb' := skb[d % n := None];
    forall j: nat | d + 1 <= j < d + 1 + n ensures SlotHolds(n, skb', posted, j) {
      ModWindow(d, j, n);
      if j < d + n { assert SlotHolds(n, skb, posted, j); }
    }
  }

  lemma DeliveriesGrow(read: seq<nat>, len: nat, posted: seq<Skb>, delivered: seq<Delivery>)
    requires Deliveries(read, posted, delivered)
    ensures len == 0 ==> Deliveries(read + [len], posted, delivered)
    ensures len > 0 && |delivered| < |posted| ==>
              Deliveries(read + [len], posted, delivered + [Delivery(posted[|delivered|], len)])
  {
    assert (read + [len])[..|read|] == read;
  }

  /** The status the host is about to read is still the one the device reported, and the slot
      it delivers from is occupied by the next buffer in posting order. */
  lemma TakeReads(p: Pipe)
    requires Inv(p) && p.pc.RecvGot?
    ensures p.pc.off < |p.stat.r.mem| && 0 <= Read(p) < |p.lens|
    ensures p.stat.r.mem[p.pc.off] == p.lens[Read(p)]
    ensures |p.delivered| < |p.posted| && p.skb[p.si] == Some(p.posted[|p.delivered|])
  {
    var k := p.stat.h.consumed - 1;
    OffsetInRing(p.n, STATUS_WORDS, k);
    assert D.Stored(p.stat, k);
    assert Entry(p.stat.r.mem, STATUS_WORDS, p.pc.off)[0] == p.stat.h.log[k][0];
    assert SlotHolds(p.n, p.skb, p.posted, |p.delivered|);
  }

  // ---- the steps --------------------------------------------------------------------

  /** A step that touches no buffer, status, descriptor or mapping keeps the contents. */
  lemma SameContent(p: Pipe, q: Pipe)
    requires Sane(p) && Content(p) && Sane(q)
    requires q == p.(post := q.post, stat := q.stat, pc := q.pc)
    requires q.post.h.log == p.post.h.log && q.post.r.mem == p.post.r.mem && q.stat.h.log == p.stat.h.log
    requires Read(q) == Read(p) && PcBuffer(q.pc) == PcBuffer(p.pc)
    requires DraftOf(q) == DraftOf(p) || DraftOf(q).Clean? || DraftOf(q).k == 0
    ensures Content(q)
  {
    assert Live(q) == Live(p);
  }

  lemma CoreSane(p: Pipe)
    requires Core(p)
    ensures Sane(p)
  {
  }

  lemma LockInv(p: Pipe, ev: Event)
    requires Inv(p) && (ev.LockPost? || ev.PostExit? || ev.LockRecv?)
    ensures Inv(Step(p, ev))
  {
    var q := Step(p, ev);
    LockCore(p, ev);
    CoreSane(q);
    SameContent(p, q);
  }

  lemma MapContent(p: Pipe, b: Skb)
    requires Sane(p) && Content(p) && p.pc.Posting? && b.paddr !in p.mapped
    ensures var q := p.(pc := Mapped(b), mapped := p.mapped + {b.paddr}); Sane(q) && Content(q)
  {
    var q := p.(pc := Mapped(b), mapped := p.mapped + {b.paddr});
    assert Live(q) == Live(p) + [b];
    DmaGrow(Live(p), p.mapped, b);
  }

  lemma MapInv(p: Pipe, b: Skb)
    requires Inv(p)
    ensures Inv(Step(p, MapOk(b)))
  {
    LockCore(p, MapOk(b));
    if Step(p, MapOk(b)) != p { MapContent(p, b); }
  }

  lemma UnmapContent(p: Pipe)
    requires Sane(p) && Content(p) && p.hand.Some?
    ensures p.hand.value.paddr in p.mapped
    ensures var q := p.(hand := None, mapped := p.mapped - {p.hand.value.paddr}); Sane(q) && Content(q)
  {
    var q := p.(hand := None, mapped := p.mapped - {p.hand.value.paddr});
    assert Live(p) == [p.hand.value] + Live(q);
    DmaShrink(Live(q), p.mapped, p.hand.value);
  }

  lemma UnmapHandInv(p: Pipe)
    requires Inv(p)
    ensures Inv(Step(p, UnmapHand))
  {
    LockCore(p, UnmapHand);
    if p.hand.Some? { UnmapContent(p); }
  }

  lemma EnqBeginInv(p: Pipe)
    requires Inv(p) && p.pc.Mapped?
    ensures Inv(Step(p, EnqBegin))
  {
    var q := Step(p, EnqBegin);
    EnqBeginCore(p);
    CoreSane(q);
    SameContent(p, q);
  }

  lemma EnqCheckInv(p: Pipe)
    requires Inv(p) && p.pc.Begun?
    ensures Inv(Step(p, EnqCheck))
  {
    var q := Step(p, EnqCheck);
    EnqCheckCore(p);
    CoreSane(q);
    SameContent(p, q);
  }

  lemma StoreContent(p: Pipe)
    requires Sane(p) && Content(p) && S.Inv(p.post) && p.pc.Filling? && p.pc.k < POST_WORDS
    requires p.post.h.published + 1 == p.post.h.granted == |p.posted| + 1
    requires Sane(StoreNext(p, p.pc.b, p.pc.k))
    ensures Content(StoreNext(p, p.pc.b, p.pc.k))
  {
    hide S.Inv, S.Step, Window, Statuses, Deliveries, Published, Dma;
    var q := StoreNext(p, p.pc.b, p.pc.k);
    var v := DstDesc(p.fmt, p.pc.b.paddr)[p.pc.k];
    S.StoreEffect(p.post, p.pc.k, v);
    DraftGrows(p.fmt, p.n, p.post.r.mem, DraftOf(p), v);
    assert Live(q) == Live(p);
  }

  lemma EnqStoreInv(p: Pipe)
    requires Inv(p) && p.pc.Filling? && p.pc.k < POST_WORDS
    ensures Inv(StoreNext(p, p.pc.b, p.pc.k))
  {
    EnqStoreCore(p);
    CoreSane(StoreNext(p, p.pc.b, p.pc.k));
    StoreContent(p);
  }

  lemma CommitContent(p: Pipe)
    requires Sane(p) && Content(p) && p.pc.Filling? && p.pc.k == POST_WORDS
    requires p.wi == |p.posted| % p.n && |p.posted| < |p.delivered| + p.n
    requires Sane(Commit(p, p.pc.b))
    ensures Content(Commit(p, p.pc.b))
  {
    var q := Commit(p, p.pc.b);
    WindowGrows(p.n, p.skb, p.posted, |p.delivered|, p.pc.b);
    assert Live(q) == Live(p);
    assert DraftOf(q) == DraftOf(p);
  }

  lemma EnqCommitInv(p: Pipe)
    requires Inv(p) && p.pc.Filling? && p.pc.k == POST_WORDS
    ensures Inv(Commit(p, p.pc.b))
  {
    CommitCore(p);
    CoreSane(Commit(p, p.pc.b));
    CommitContent(p);
  }

  lemma EndContent(p: Pipe)
    requires Sane(p) && Content(p) && S.Inv(p.post) && p.pc.Publishing?
    requires p.post.h.published + 1 == p.post.h.granted == |p.posted|
    requires Sane(Step(p, EnqEnd))
    ensures Content(Step(p, EnqEnd))
  {
    var q := Step(p, EnqEnd);
    var i := |p.posted| - 1;
    S.EndEffect(p.post);
    assert q.post.h.log[i] == DstDesc(p.fmt, p.posted[i].paddr) by {
      OffsetInRing(p.n, POST_WORDS, i);
      assert DraftOf(p) == Draft(p.posted[i], i, POST_WORDS);
    }
    assert Published(q.fmt, q.post.h.log, q.posted);
    assert Live(q) == Live(p);
  }

  lemma EnqEndInv(p: Pipe)
    requires Inv(p) && p.pc.Publishing?
    ensures Inv(Step(p, EnqEnd))
  {
    EnqEndCore(p);
    CoreSane(Step(p, EnqEnd));
    EndContent(p);
  }

  lemma RecvBeginInv(p: Pipe)
    requires Inv(p) && p.pc.RecvLocked?
    ensures Inv(Step(p, RecvBegin))
  {
    var q := Step(p, RecvBegin);
    RecvBeginCore(p);
    CoreSane(q);
    SameContent(p, q);
  }

  lemma RecvGetInv(p: Pipe)
    requires Inv(p) && p.pc.RecvBegun?
    ensures Inv(Step(p, RecvGet))
  {
    var q := Step(p, RecvGet);
    RecvGetCore(p);
    CoreSane(q);
    SameContent(p, q);
  }

  lemma RecvEndInv(p: Pipe)
    requires Inv(p) && p.pc.RecvEnding?
    ensures Inv(Step(p, RecvEnd))
  {
    var q := Step(p, RecvEnd);
    RecvEndCore(p);
    CoreSane(q);
    SameContent(p, q);
  }

  lemma TakeContent(p: Pipe)
    requires Sane(p) && Content(p) && p.pc.RecvGot? && p.pc.off < |p.stat.r.mem| && Read(p) < |p.lens|
    requires p.stat.r.mem[p.pc.off] == p.lens[Read(p)]
    requires |p.delivered| < |p.posted| <= |p.delivered| + p.n && p.si == |p.delivered| % p.n && p.hand.None?
    requires p.skb[p.si] == Some(p.posted[|p.delivered|])
    requires Sane(Take(p, p.pc.off))
    ensures Content(Take(p, p.pc.off))
  {
    var q := Take(p, p.pc.off);
    var r := Read(p);
    assert p.lens[..r + 1] == p.lens[..r] + [p.lens[r]];
    DeliveriesGrow(p.lens[..r], p.lens[r], p.posted, p.delivered);
    if p.lens[r] > 0 {
      WindowShrinks(p.n, p.skb, p.posted, |p.delivered|);
    }
    assert Live(q) == Live(p);
  }

  lemma RecvTakeInv(p: Pipe)
    requires Inv(p) && p.pc.RecvGot?
    ensures Inv(Step(p, RecvTake))
  {
    TakeReads(p);
    TakeCore(p);
    CoreSane(Take(p, p.pc.off));
    TakeContent(p);
  }

  lemma DevFetchInv(p: Pipe)
    requires Inv(p)
    ensures Inv(Step(p, DevFetch))
  {
    var q := Step(p, DevFetch);
    DevFetchCore(p);
    CoreSane(q);
    SameContent(p, q);
  }

  lemma StatusContent(p: Pipe, len: nat, flag: nat)
    requires Sane(p) && Content(p)
    requires Sane(Step(p, DevStatus(len, flag)))
    ensures Content(Step(p, DevStatus(len, flag)))
  {
    var q := Step(p, DevStatus(len, flag));
    if q != p {
      assert Live(q) == Live(p);
      assert q.lens[..Read(q)] == p.lens[..Read(p)];
      assert Statuses(q.lens, q.stat.h.log);
    }
  }

  lemma DevStatusInv(p: Pipe, len: nat, flag: nat)
    requires Inv(p)
    ensures Inv(Step(p, DevStatus(len, flag)))
  {
    DevStatusCore(p, len, flag);
    CoreSane(Step(p, DevStatus(len, flag)));
    StatusContent(p, len, flag);
  }

  /** Every step of every party keeps the invariant. */
  lemma StepInv(p: Pipe, ev: Event)
    requires Inv(p)
    ensures Inv(Step(p, ev))
  {
    match ev
    case MapOk(b) => MapInv(p, b);
    case EnqBegin => if p.pc.Mapped? { EnqBeginInv(p); }
    case EnqCheck => if p.pc.Begun? { EnqCheckInv(p); }
    case EnqStore => if p.pc.Filling? && p.pc.k < POST_WORDS { EnqStoreInv(p); }
    case EnqCommit => if p.pc.Filling? && p.pc.k == POST_WORDS { EnqCommitInv(p); }
    case EnqEnd => if p.pc.Publishing? { EnqEndInv(p); }
    case UndoUnmap =>
    case RecvTake => if p.pc.RecvGot? { RecvTakeInv(p); }
    case UnmapHand => UnmapHandInv(p);
    case DevFetch => DevFetchInv(p);
    case DevStatus(len, flag) => DevStatusInv(p, len, flag);
    case RecvBegin => if p.pc.RecvLocked? { RecvBeginInv(p); }
    case RecvGet => if p.pc.RecvBegun? { RecvGetInv(p); }
    case RecvEnd => if p.pc.RecvEnding? { RecvEndInv(p); }
    case _ => LockInv(p, ev);
  }
}
