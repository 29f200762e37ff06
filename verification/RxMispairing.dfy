/** A run in which the receive pipe delivers a buffer with another buffer's length. The device
    reports one buffer as empty; the driver consumes that status without taking the buffer, and
    the next status is paired with it. */
module RxMispairing {
  import opened Common
  import opened Bits
  import opened RingMath
  import opened Descriptors
  import opened RxPipeline
  import opened RxInvariant
  import opened RxTheorems

  /** q is reached from p by some run, and both are reachable states. */
  ghost predicate Reaches(p: Pipe, q: Pipe) {
    Inv(p) && Inv(q) && Shaped(q) && exists evs: seq<Event> :: Run(p, evs) == Some(q)
  }

  lemma ReachesStep(p: Pipe, q: Pipe, ev: Event)
    requires Reaches(p, q)
    ensures Shaped(q) && Reaches(p, Step(q, ev))
  {
    var evs: seq<Event> :| Run(p, evs) == Some(q);
    StepInv(q, ev);
    RunExtend(p, evs, ev);
    assert Run(p, evs + [ev]) == Some(Step(q, ev));
  }

  /** What posting leaves alone. */
  ghost predicate PostOnly(p: Pipe, q: Pipe) {
    && q.delivered == p.delivered && q.lens == p.lens && q.stat == p.stat && q.hand == p.hand
    && q.post.h.fetched == p.post.h.fetched && q.n == p.n
  }

  lemma MapEffect(p: Pipe, b: Skb)
    requires Shaped(p) && p.pc.Posting? && p.needed > 0 && b.paddr !in p.mapped
    ensures var q := Step(p, MapOk(b));
            && q.pc == Mapped(b) && PostOnly(p, q) && q.posted == p.posted && q.needed == p.needed
            && q.mapped == p.mapped + {b.paddr}
  {
  }

  ghost predicate Held(p: Pipe, q: Pipe) {
    PostOnly(p, q) && q.posted == p.posted && q.needed == p.needed && q.mapped == p.mapped
  }

  lemma BeginEffect(p: Pipe)
    requires Shaped(p) && p.pc.Mapped?
    ensures var q := Step(p, EnqBegin); q.pc == Begun(p.pc.b) && Held(p, q)
  {
  }

  lemma CheckEffect(p: Pipe)
    requires Inv(p) && Shaped(p) && p.pc.Begun?
    ensures var q := Step(p, EnqCheck); q.pc == Filling(p.pc.b, 0) && Held(p, q)
  {
    RoomToPost(p);
  }

  lemma StoreEffect(p: Pipe)
    requires Inv(p) && Shaped(p) && p.pc.Filling? && p.pc.k < POST_WORDS
    ensures var q := Step(p, EnqStore); q.pc == Filling(p.pc.b, p.pc.k + 1) && Held(p, q)
  {
  }

  lemma CommitEffect(p: Pipe)
    requires Inv(p) && Shaped(p) && p.pc.Filling? && p.pc.k == POST_WORDS
    ensures var q := Step(p, EnqCommit);
            && q.pc.Publishing? && PostOnly(p, q) && q.posted == p.posted + [p.pc.b]
            && q.mapped == p.mapped && q.needed == p.needed - 1
  {
    Dec32(p.needed);
  }

  lemma EndEffect(p: Pipe)
    requires Shaped(p) && p.pc.Publishing?
    ensures var q := Step(p, EnqEnd); q.pc.Posting? && Held(p, q)
  {
  }

  /** post_pipe can always post: with credit left and a fresh address, one round of its loop
      puts the buffer behind those already posted. */
  lemma PostRound(p0: Pipe, p: Pipe, b: Skb) returns (q: Pipe)
    requires Reaches(p0, p) && p.pc.Posting? && p.needed > 0 && b.paddr !in p.mapped
    ensures Reaches(p0, q) && q.pc.Posting? && PostOnly(p, q)
    ensures q.posted == p.posted + [b] && q.mapped == p.mapped + {b.paddr} && q.needed == p.needed - 1
  {
    q := OpenRound(p0, p, b);
    q := FillRound(p0, q, b, POST_WORDS);
    q := CloseRound(p0, q, b);
  }

  lemma OpenRound(p0: Pipe, p: Pipe, b: Skb) returns (q: Pipe)
    requires Reaches(p0, p) && p.pc.Posting? && p.needed > 0 && b.paddr !in p.mapped
    ensures Reaches(p0, q) && q.pc == Filling(b, 0) && PostOnly(p, q)
    ensures q.posted == p.posted && q.mapped == p.mapped + {b.paddr} && q.needed == p.needed
  {
    hide Step, Inv, Shaped;
    ReachesStep(p0, p, MapOk(b));
    MapEffect(p, b);
    var x := Step(p, MapOk(b));
    ReachesStep(p0, x, EnqBegin);
    BeginEffect(x);
    var y := Step(x, EnqBegin);
    ReachesStep(p0, y, EnqCheck);
    CheckEffect(y);
    q := Step(y, EnqCheck);
  }

  lemma {:induction false} FillRound(p0: Pipe, p: Pipe, b: Skb, k: nat) returns (q: Pipe)
    requires Reaches(p0, p) && k <= POST_WORDS && p.pc == Filling(b, POST_WORDS - k)
    ensures Reaches(p0, q) && q.pc == Filling(b, POST_WORDS) && Held(p, q)
    decreases k
  {
    hide Step, Inv, Shaped;
    q := p;
    if k > 0 {
      ReachesStep(p0, p, EnqStore);
      StoreEffect(p);
      q := FillRound(p0, Step(p, EnqStore), b, k - 1);
    }
  }

  lemma CloseRound(p0: Pipe, p: Pipe, b: Skb) returns (q: Pipe)
    requires Reaches(p0, p) && p.pc == Filling(b, POST_WORDS)
    ensures Reaches(p0, q) && q.pc.Posting? && PostOnly(p, q)
    ensures q.posted == p.posted + [b] && q.mapped == p.mapped && q.needed == p.needed - 1
  {
    hide Step, Inv, Shaped;
    ReachesStep(p0, p, EnqCommit);
    CommitEffect(p);
    var x := Step(p, EnqCommit);
    ReachesStep(p0, x, EnqEnd);
    EndEffect(x);
    q := Step(x, EnqEnd);
  }

  ghost predicate Seen(p: Pipe, q: Pipe) {
    && q.n == p.n && q.posted == p.posted && q.delivered == p.delivered && q.hand == p.hand
    && q.stat.h.consumed == p.stat.h.consumed
  }

  lemma FetchEffect(p: Pipe)
    requires Inv(p) && Shaped(p) && p.post.h.fetched < p.post.h.published
    ensures var q := Step(p, DevFetch);
            q.post.h.fetched == p.post.h.fetched + 1 && Seen(p, q) && q.lens == p.lens && q.pc == p.pc
  {
    OffsetsEqual(p.n, POST_WORDS, p.post.h.fetched, p.post.h.published);
  }

  lemma StatusEffect(p: Pipe, len: nat)
    requires Shaped(p) && |p.lens| < p.post.h.fetched
    ensures var q := Step(p, DevStatus(len, 0));
            q.post.h.fetched == p.post.h.fetched && Seen(p, q) && q.lens == p.lens + [len] && q.pc == p.pc
  {
  }

  lemma AllPublished(p: Pipe)
    requires Inv(p) && p.pc.Idle?
    ensures p.post.h.published == |p.posted| && |p.lens| <= p.post.h.fetched
  {
  }

  /** The device consumes one published buffer and reports a length for the oldest unreported. */
  lemma DeviceRound(p0: Pipe, p: Pipe, len: nat) returns (q: Pipe)
    requires Reaches(p0, p) && p.pc.Idle? && p.post.h.fetched < |p.posted|
    ensures Reaches(p0, q) && q.pc.Idle? && Seen(p, q)
    ensures q.lens == p.lens + [len] && q.post.h.fetched == p.post.h.fetched + 1
  {
    hide Step, Inv, Shaped;
    AllPublished(p);
    ReachesStep(p0, p, DevFetch);
    FetchEffect(p);
    var x := Step(p, DevFetch);
    ReachesStep(p0, x, DevStatus(len, 0));
    StatusEffect(x, len);
    q := Step(x, DevStatus(len, 0));
  }

  /** What recv_next leaves alone before it reads the length. */
  ghost predicate RecvOnly(p: Pipe, q: Pipe) {
    && q.n == p.n && q.post == p.post && q.posted == p.posted && q.delivered == p.delivered
    && q.hand == p.hand && q.lens == p.lens
  }

  lemma LockEffect(p: Pipe)
    requires Shaped(p) && p.pc.Idle? && p.hand.None?
    ensures var q := Step(p, LockRecv);
            q.pc.RecvLocked? && RecvOnly(p, q) && q.stat.h.consumed == p.stat.h.consumed
  {
  }

  lemma RecvBeginEffect(p: Pipe)
    requires Inv(p) && Shaped(p) && p.pc.RecvLocked?
    ensures var q := Step(p, RecvBegin);
            && q.pc.RecvBegun? && RecvOnly(p, q) && q.stat.h.consumed == p.stat.h.consumed
            && q.stat.h.cached == |p.lens|
  {
  }

  lemma RecvGetEffect(p: Pipe)
    requires Inv(p) && Shaped(p) && p.pc.RecvBegun? && p.stat.h.consumed < p.stat.h.cached
    ensures var q := Step(p, RecvGet);
            q.pc.RecvGot? && RecvOnly(p, q) && q.stat.h.consumed == p.stat.h.consumed + 1
  {
    OffsetsEqual(p.n, STATUS_WORDS, p.stat.h.consumed, p.stat.h.cached);
  }

  lemma TakeEffect(p: Pipe)
    requires Inv(p) && Shaped(p) && p.pc.RecvGot?
    ensures var q := Step(p, RecvTake);
            && q.pc.RecvEnding? && q.n == p.n && q.post == p.post && q.posted == p.posted && q.lens == p.lens
            && 1 <= p.stat.h.consumed <= |p.lens| && q.stat.h.consumed == p.stat.h.consumed
            && (var len := p.lens[p.stat.h.consumed - 1];
                if len == 0 then q.delivered == p.delivered && q.hand == p.hand
                else |p.delivered| < |p.posted| && q.delivered == p.delivered + [Delivery(p.posted[|p.delivered|], len)])
  {
    TakeReads(p);
  }

  /** One recv_next with an unread status: a zero length consumes it and delivers nothing, any
      other length delivers the oldest posted buffer with it. */
  lemma RecvRound(p0: Pipe, p: Pipe) returns (q: Pipe)
    requires Reaches(p0, p) && p.pc.Idle? && p.hand.None? && p.stat.h.consumed < |p.lens|
    ensures Reaches(p0, q) && q.pc.RecvEnding? && q.n == p.n && q.post == p.post
    ensures q.lens == p.lens && q.posted == p.posted && q.stat.h.consumed == p.stat.h.consumed + 1
    ensures p.lens[p.stat.h.consumed] == 0 ==> q.delivered == p.delivered && q.hand.None?
    ensures p.lens[p.stat.h.consumed] > 0 ==>
              && |p.delivered| < |p.posted|
              && q.delivered == p.delivered + [Delivery(p.posted[|p.delivered|], p.lens[p.stat.h.consumed])]
  {
    hide Step, Inv, Shaped;
    ReachesStep(p0, p, LockRecv);
    LockEffect(p);
    var x := Step(p, LockRecv);
    ReachesStep(p0, x, RecvBegin);
    RecvBeginEffect(x);
    var y := Step(x, RecvBegin);
    ReachesStep(p0, y, RecvGet);
    RecvGetEffect(y);
    var z := Step(y, RecvGet);
    ReachesStep(p0, z, RecvTake);
    TakeEffect(z);
    q := Step(z, RecvTake);
  }

  /** Some delivery carries a length other than the one reported for its buffer. */
  predicate Mispaired(p: Pipe) {
    exists k :: 0 <= k < |p.delivered| && k < |p.lens| && p.delivered[k].nbytes != p.lens[k]
  }

  ghost predicate CanMispair(fmt: Layout, n: nat)
    requires ValidEntries(n)
  {
    exists evs: seq<Event> :: Run(Init(fmt, n), evs).Some? && Mispaired(Run(Init(fmt, n), evs).value)
  }

  lemma LockPostEffect(p: Pipe)
    requires Shaped(p) && p.pc.Idle?
    ensures var q := Step(p, LockPost); q.pc.Posting? && Held(p, q)
  {
  }

  lemma PostExitEffect(p: Pipe)
    requires Shaped(p) && p.pc.Posting?
    ensures var q := Step(p, PostExit); q.pc.Idle? && Held(p, q)
  {
  }

  lemma RecvEndEffect(p: Pipe)
    requires Shaped(p) && p.pc.RecvEnding?
    ensures var q := Step(p, RecvEnd); q.pc.Idle? && RecvOnly(p, q) && q.stat.h.consumed == p.stat.h.consumed
  {
  }

  /** post_pipe on an idle pipe that has posted nothing yet, with two buffers at hand. */
  lemma TwoPosted(p0: Pipe) returns (p: Pipe)
    requires Reaches(p0, p0) && p0.pc.Idle? && p0.needed >= 2 && p0.mapped == {} && p0.posted == []
    ensures Reaches(p0, p) && p.pc.Idle? && |p.posted| == 2 && PostOnly(p0, p)
  {
    hide Step, Inv, Shaped;
    ReachesStep(p0, p0, LockPost);
    LockPostEffect(p0);
    var x := Step(p0, LockPost);
    x := PostRound(p0, x, Skb(0, 0));
    x := PostRound(p0, x, Skb(1, 1));
    ReachesStep(p0, x, PostExit);
    PostExitEffect(x);
    p := Step(x, PostExit);
  }

  /** recv_next on a status of length zero, up to the release of the lock. */
  lemma EmptyRecv(p0: Pipe, p: Pipe) returns (q: Pipe)
    requires Reaches(p0, p) && p.pc.Idle? && p.hand.None? && p.stat.h.consumed < |p.lens|
    requires p.lens[p.stat.h.consumed] == 0
    ensures Reaches(p0, q) && q.pc.Idle? && RecvOnly(p, q) && q.stat.h.consumed == p.stat.h.consumed + 1
  {
    hide Step, Inv, Shaped;
    var x := RecvRound(p0, p);
    ReachesStep(p0, x, RecvEnd);
    RecvEndEffect(x);
    q := Step(x, RecvEnd);
  }

  /** The run: two buffers are posted, the first is reported empty and the second with 100 bytes;
      the first buffer is delivered with 100 bytes. */
  lemma MispairingRun(fmt: Layout, n: nat)
    requires Supported(fmt, n) && n >= 4
    ensures CanMispair(fmt, n)
  {
    var p0 := Init(fmt, n);
    InitInv(fmt, n);
    assert Run(p0, []) == Some(p0);
    var q := MispairingFrom(p0);
  }

  lemma MispairingFrom(p0: Pipe) returns (p: Pipe)
    requires Reaches(p0, p0) && p0.pc.Idle? && p0.needed >= 2 && p0.mapped == {} && p0.posted == []
    requires p0.lens == [] && p0.delivered == [] && p0.hand.None? && p0.post.h.fetched == 0 && p0.stat.h.consumed == 0
    ensures Reaches(p0, p) && Mispaired(p)
  {
    hide Step, Inv, Shaped;
    p := TwoPosted(p0);
    p := DeviceRound(p0, p, 0);
    p := DeviceRound(p0, p, 100);
    p := EmptyRecv(p0, p);
    p := RecvRound(p0, p);
    assert p.delivered[0].nbytes == 100 && p.lens[0] == 0;
  }

  /** With two entries there is no credit: nothing is ever posted. */
  lemma {:induction false} NothingPosted(p: Pipe, evs: seq<Event>)
    requires Inv(p) && p.n == 2 && p.posted == [] && Run(p, evs).Some?
    ensures Run(p, evs).value.delivered == []
    decreases |evs|
  {
    if evs != [] {
      StepHistory(p, evs[0]);
      StepInv(p, evs[0]);
      NothingPosted(Step(p, evs[0]), evs[1..]);
    }
  }

  /** Lengths can be paired with the wrong buffers on every ring that can hold two buffers; a ring
      of two entries, the only smaller one, never delivers anything. */
  lemma MispairingIff(fmt: Layout, n: nat)
    requires Supported(fmt, n)
    ensures CanMispair(fmt, n) <==> n > 2
  {
    if n > 2 {
      assert n != 3 by { assert !IsPow2(3); }
      MispairingRun(fmt, n);
    } else {
      InitInv(fmt, n);
      forall evs: seq<Event> | Run(Init(fmt, n), evs).Some?
        ensures !Mispaired(Run(Init(fmt, n), evs).value)
      {
        NothingPosted(Init(fmt, n), evs);
      }
    }
  }
}
