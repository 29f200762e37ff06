/** What zero-length statuses cost. Each one leaves a buffer in skb[] that the device has finished
    with and the driver never takes out, so it uses up one unit of credit for good; once n - 2 of
    them were read the pipe is dead. */
module RxStall {
  import opened Common
  import opened Bits
  import opened RingMath
  import opened Descriptors
  import opened RxPipeline
  import opened RxInvariant
  import opened RxTheorems
  import opened RxMispairing

  /** Zero-length statuses read so far. */
  function Lost(p: Pipe): int {
    Read(p) - |p.delivered|
  }

  /** Every one of the n - 2 slots is credit, with the device or unread, or lost. */
  lemma SlotsAccounted(fmt: Layout, n: nat, evs: seq<Event>)
    requires Supported(fmt, n)
    ensures var p := StateAfter(fmt, n, evs);
            && p.needed + (|p.posted| - Read(p)) + Lost(p) == n - 2
            && Read(p) <= |p.posted| && 0 <= Lost(p) <= n - 2
  {
  }

  /** A lost slot is never regained. */
  lemma LostStep(p: Pipe, ev: Event)
    requires Inv(p)
    ensures Lost(p) <= Lost(Step(p, ev))
  {
    if ev.RecvTake? && p.pc.RecvGot? {
      TakeReads(p);
    }
  }

  lemma {:induction false} LostForGood(p: Pipe, evs: seq<Event>)
    requires Inv(p)
    ensures Run(p, evs).Some? && Lost(p) <= Lost(Run(p, evs).value)
    decreases |evs|
  {
    if evs != [] {
      StepInv(p, evs[0]);
      LostStep(p, evs[0]);
      LostForGood(Step(p, evs[0]), evs[1..]);
    }
  }

  ghost predicate Stalled(p: Pipe) {
    Lost(p) == p.n - 2
  }

  /** A stalled pipe has no credit, and the device is done with everything it was given. */
  lemma StalledMeans(p: Pipe)
    requires Inv(p) && Stalled(p)
    ensures p.needed == 0 && !p.pc.RecvGot?
    ensures |p.posted| == p.post.h.fetched == |p.lens| == p.stat.h.consumed
  {
  }

  lemma StalledStep(p: Pipe, ev: Event)
    requires Inv(p) && Stalled(p)
    ensures var q := Step(p, ev);
            Inv(q) && Stalled(q) && q.posted == p.posted && q.delivered == p.delivered
  {
    StalledMeans(p);
    StepInv(p, ev);
    StepHistory(p, ev);
    LostStep(p, ev);
    LostAtMost(Step(p, ev));
  }

  lemma LostAtMost(p: Pipe)
    requires Inv(p)
    ensures Lost(p) <= p.n - 2
  {
  }

  lemma {:induction false} StalledRun(p: Pipe, evs: seq<Event>)
    requires Inv(p) && Stalled(p)
    ensures var r := Run(p, evs);
            r.Some? && Stalled(r.value) && r.value.posted == p.posted && r.value.delivered == p.delivered
    decreases |evs|
  {
    if evs != [] {
      StalledStep(p, evs[0]);
      StalledRun(Step(p, evs[0]), evs[1..]);
    }
  }

  /** Once n - 2 statuses of length zero were read, no party ever posts or delivers a buffer
      again, whatever the driver and the device do. */
  lemma StalledForever(fmt: Layout, n: nat, evs: seq<Event>, more: seq<Event>)
    requires Supported(fmt, n) && Stalled(StateAfter(fmt, n, evs))
    ensures var p := StateAfter(fmt, n, evs);
            var r := Run(p, more);
            r.Some? && Stalled(r.value) && r.value.posted == p.posted && r.value.delivered == p.delivered
  {
    StalledRun(StateAfter(fmt, n, evs), more);
  }

  // ---- a run that stalls ------------------------------------------------------------

  lemma AddressAbove(mapped: set<nat>) returns (a: nat)
    ensures forall m :: m in mapped ==> m < a
    decreases |mapped|
  {
    if mapped == {} {
      a := 0;
    } else {
      var x :| x in mapped;
      var rest := mapped - {x};
      a := AddressAbove(rest);
      if a <= x { a := x + 1; }
      assert forall m :: m in mapped ==> m == x || m in rest;
    }
  }

  /** Everything posted was reported with length zero and read, and nobody holds the lock. */
  ghost predicate AllLost(p: Pipe, k: nat) {
    && p.pc.Idle? && p.hand.None? && p.delivered == []
    && |p.posted| == k && |p.lens| == k && p.post.h.fetched == k && p.stat.h.consumed == k
  }

  lemma CreditAtIdle(p: Pipe, k: nat)
    requires Inv(p) && AllLost(p, k)
    ensures p.needed == p.n - 2 - k
  {
  }

  /** One buffer more is posted, reported empty and lost. */
  lemma LoseOne(p0: Pipe, p: Pipe, k: nat) returns (q: Pipe)
    requires Reaches(p0, p) && AllLost(p, k) && k < p.n - 2
    ensures Reaches(p0, q) && AllLost(q, k + 1) && q.n == p.n
  {
    hide Step, Inv, Shaped;
    CreditAtIdle(p, k);
    ReachesStep(p0, p, LockPost);
    LockPostEffect(p);
    q := Step(p, LockPost);
    var a := AddressAbove(q.mapped);
    q := PostRound(p0, q, Skb(k, a));
    ReachesStep(p0, q, PostExit);
    PostExitEffect(q);
    q := Step(q, PostExit);
    q := DeviceRound(p0, q, 0);
    q := EmptyRecv(p0, q);
    assert AllLost(q, k + 1);
  }

  lemma {:induction false} LoseMany(p0: Pipe, k: nat) returns (q: Pipe)
    requires Reaches(p0, p0) && AllLost(p0, 0) && k <= p0.n - 2
    ensures Reaches(p0, q) && AllLost(q, k) && q.n == p0.n
    decreases k
  {
    hide Step, Inv, Shaped;
    q := p0;
    if k > 0 {
      q := LoseMany(p0, k - 1);
      q := LoseOne(p0, q, k - 1);
    }
  }

  /** Such a run exists on every ring: the device reports n - 2 buffers as empty. */
  lemma StallReachable(fmt: Layout, n: nat)
    requires Supported(fmt, n)
    ensures exists evs: seq<Event> :: Stalled(StateAfter(fmt, n, evs))
  {
    var p0 := Init(fmt, n);
    InitInv(fmt, n);
    assert Run(p0, []) == Some(p0);
    var q := LoseMany(p0, n - 2);
    var evs: seq<Event> :| Run(p0, evs) == Some(q);
    assert StateAfter(fmt, n, evs) == q;
  }
}
