/** The management-transmit worker: every frame gets a tx id from a table of 512 and a DMA
    mapping before its command is sent, and gives both back when anything fails. */
module MgmtTx {
  import opened Bits
  import opened Common
  import opened Framing
  import opened Wmi

  const MAX_PENDING: nat := 512
  const PRB_RSP_DROP_THRESHOLD: int := 48   // three quarters of 64

  /** A frame waiting to be sent; encap, protect and robust are what decides whether it is given
      room for a MIC. */
  datatype Frame = Frame(vif: Option<nat>, encap: bool, protect: bool, robust: bool, bytes: seq<nat>, paddr: nat)

  /** What the outside answers while one frame is sent: whether the id table can grow, the bytes
      of the MIC room, the bus address unless mapping fails, and the command's own outcomes. */
  datatype Outcome = Outcome(idr: bool, mic: seq<nat>, map_: Option<nat>, pad: Option<nat>, attempts: seq<Attempt>)

  ghost predicate ValidFrame(f: Frame) {
    (f.vif.Some? ==> f.vif.value < TWO32) && |f.bytes| + 16 < TWO32
  }

  ghost predicate ValidOutcome(o: Outcome) {
    o.attempts != [] && (o.map_.Some? ==> o.map_.value < TWO32 * TWO32) && |o.mic| <= 16
  }

  /** A frame whose command the copy engine accepted, with that command. */
  datatype Sent = Sent(frame: nat, msg: Mgmt)

  /** Frames are named by number. frames holds what is in them, mapped the bus address under which
      each mapped frame was mapped; sent is the history. */
  datatype Tx = Tx(idr: map<nat, nat>, mapped: map<nat, nat>, queue: seq<nat>, frames: map<nat, Frame>, sent: seq<Sent>)

  // ---- one frame --------------------------------------------------------------------

  /** idr_alloc hands out the lowest free id. */
  function FirstFree(idr: map<nat, nat>, from: nat): (r: Option<nat>)
    requires from <= MAX_PENDING
    ensures r.Some? ==> from <= r.value < MAX_PENDING && r.value !in idr && forall i :: from <= i < r.value ==> i in idr
    ensures r.None? ==> forall i :: from <= i < MAX_PENDING ==> i in idr
    decreases MAX_PENDING - from
  {
    if from == MAX_PENDING then None
    else if from !in idr then Some(from)
    else FirstFree(idr, from + 1)
  }

  function AllocId(idr: map<nat, nat>, o: Outcome): (r: Option<nat>)
    ensures r.Some? ==> r.value < MAX_PENDING && r.value !in idr
  {
    if o.idr then FirstFree(idr, 0) else None
  }

  /** A frame that gets room for a MIC: protected, an action, deauthentication or disassociation
      frame, and not encapsulated by hardware. */
  predicate Protected(f: Frame) {
    !f.encap && f.protect && f.robust
  }

  function Grown(f: Frame, o: Outcome): (r: Frame)
    ensures r.vif == f.vif && r.bytes == f.bytes + if Protected(f) then o.mic else []
  {
    if !f.encap && f.protect && f.robust then f.(bytes := f.bytes + o.mic) else f
  }

  function SendResult(o: Outcome): int
    requires o.attempts != []
  {
    if o.pad.None? then -ENOMEM else Verdict(o.attempts[Tries(o.attempts) - 1])
  }

  function TxResult(idr: map<nat, nat>, o: Outcome): int
    requires o.attempts != []
  {
    if AllocId(idr, o).None? then -ENOSPC else if o.map_.None? then -EIO else SendResult(o)
  }

  function Addressed(f: Frame, o: Outcome): Frame {
    if o.map_.None? then f else f.(paddr := o.map_.value)
  }

  function MessageFor(f: Frame, id: nat): Mgmt
    requires f.vif.Some?
  {
    Mgmt(f.vif.value, id, f.paddr, f.bytes)
  }

  /** The state after wireless_simu_mgmt_tx_wmi: success keeps an id and a mapping, a failure
      keeps neither; only the frame itself stays changed. */
  function TxWmi(s: Tx, f: nat, o: Outcome): Tx
    requires f in s.frames && s.frames[f].vif.Some? && o.attempts != []
  {
    match AllocId(s.idr, o)
    case None => s
    case Some(id) =>
      var g := Addressed(Grown(s.frames[f], o), o);
      var t := s.(frames := s.frames[f := g]);
      if TxResult(s.idr, o) != 0 then t
      else t.(idr := s.idr[id := f], mapped := s.mapped[f := o.map_.value], sent := s.sent + [Sent(f, MessageFor(g, id))])
  }

  // ---- runs -------------------------------------------------------------------------

  /** A frame is offered to the queue, with the pending count the driver reads if it is a probe
      response, or the worker takes the next one. */
  datatype Event = Arrive(f: nat, frame: Frame, prbRsp: bool, pending: int) | Work(o: Outcome)

  /** wireless_simu_mac_mgmt_tx refuses probe responses above a threshold, and every frame when
      the queue is full. */
  predicate Refused(queueLen: nat, prbRsp: bool, pending: int) {
    (prbRsp && pending > PRB_RSP_DROP_THRESHOLD) || queueLen >= MAX_PENDING
  }

  /** A frame the driver still holds, which cannot be offered again. */
  predicate Holds(s: Tx, f: nat) {
    f in s.queue || f in s.mapped
  }

  ghost predicate Enabled(s: Tx, e: Event) {
    match e
    case Arrive(_, frame, _, _) => ValidFrame(frame)
    case Work(o) => ValidOutcome(o) && s.queue != []
  }

  ghost predicate Queued(s: Tx) {
    && |s.queue| <= MAX_PENDING
    && (forall i :: 0 <= i < |s.queue| ==> s.queue[i] in s.frames && s.queue[i] !in s.mapped && ValidFrame(s.frames[s.queue[i]]))
    && (forall i, j :: 0 <= i < j < |s.queue| ==> s.queue[i] != s.queue[j])
  }

  /** Live ids are exactly 0 .. |sent| - 1, in the order of success. */
  ghost predicate Ids(s: Tx) {
    && |s.sent| <= MAX_PENDING
    && (forall i :: i in s.idr <==> 0 <= i < |s.sent|)
    && (forall i :: 0 <= i < |s.sent| ==> s.idr[i] == s.sent[i].frame)
  }

  ghost predicate Mappings(s: Tx) {
    && s.mapped.Keys == (set i | 0 <= i < |s.sent| :: s.sent[i].frame)
    && (forall i, j :: 0 <= i < j < |s.sent| ==> s.sent[i].frame != s.sent[j].frame)
  }

  /** What the message of a live id says is what the mapped frame is. */
  ghost predicate Message(s: Tx, i: nat)
    requires i < |s.sent|
  {
    var f := s.sent[i].frame;
    && f in s.frames && s.frames[f].vif.Some? && s.sent[i].msg == MessageFor(s.frames[f], i) && ValidMgmt(s.sent[i].msg)
    && f in s.mapped && s.mapped[f] == s.sent[i].msg.paddr
  }

  ghost predicate Messages(s: Tx) {
    forall i :: 0 <= i < |s.sent| ==> Message(s, i)
  }

  ghost predicate Inv(s: Tx) {
    Queued(s) && Ids(s) && Mappings(s) && Messages(s)
  }

  ghost function Step(s: Tx, e: Event): Tx
    requires Queued(s) && Enabled(s, e)
  {
    match e
    case Arrive(f, frame, prbRsp, pending) =>
      if Holds(s, f) || Refused(|s.queue|, prbRsp, pending) then s else s.(queue := s.queue + [f], frames := s.frames[f := frame])
    case Work(o) =>
      var f, t := s.queue[0], s.(queue := s.queue[1..]);
      if s.frames[f].vif.None? then t.(frames := t.frames - {f})   // dropped and freed
      else TxWmi(t, f, o)
  }

  /** The next id is the number of frames sent so far. */
  lemma NextId(s: Tx, o: Outcome)
    requires Ids(s)
    ensures AllocId(s.idr, o) == if o.idr && |s.sent| < MAX_PENDING then Some(|s.sent|) else None
  {
    var r := FirstFree(s.idr, 0);
    if r.Some? {
      assert |s.sent| < r.value ==> |s.sent| in s.idr;
    } else {
      assert |s.sent| < MAX_PENDING ==> |s.sent| in s.idr;
    }
  }

  lemma QueueGrows(s: Tx, e: Event)
    requires Inv(s) && e.Arrive? && Enabled(s, e)
    ensures Inv(Step(s, e))
  {
    var t := Step(s, e);
    forall i | 0 <= i < |t.sent|
      ensures Message(t, i)
    {
      assert Message(s, i);
      assert s.sent[i].frame in s.mapped;
    }
  }

  /** The frame taken off the queue is free of ids and mappings. */
  lemma Dequeued(s: Tx)
    requires Inv(s) && s.queue != []
    ensures var t := s.(queue := s.queue[1..]); Inv(t) && s.queue[0] !in t.queue && s.queue[0] !in t.mapped
  {
    var t := s.(queue := s.queue[1..]);
    forall i | 0 <= i < |t.sent|
      ensures Message(t, i)
    {
      assert Message(s, i);
    }
  }

  lemma TxWmiMessages(s: Tx, f: nat, o: Outcome)
    requires Inv(s) && ValidOutcome(o) && f in s.frames && s.frames[f].vif.Some? && ValidFrame(s.frames[f])
    requires f !in s.mapped
    ensures Messages(TxWmi(s, f, o))
  {
    var t := TxWmi(s, f, o);
    NextId(s, o);
    forall i | 0 <= i < |t.sent|
      ensures Message(t, i)
    {
      if i < |s.sent| {
        assert Message(s, i);
        assert s.sent[i].frame in s.mapped;
      }
    }
  }

  lemma TxWmiIds(s: Tx, f: nat, o: Outcome)
    requires Ids(s) && ValidOutcome(o) && f in s.frames && s.frames[f].vif.Some?
    ensures Ids(TxWmi(s, f, o))
  {
    NextId(s, o);
  }

  lemma TxWmiMappings(s: Tx, f: nat, o: Outcome)
    requires Mappings(s) && ValidOutcome(o) && f in s.frames && s.frames[f].vif.Some?
    requires f !in s.mapped
    ensures Mappings(TxWmi(s, f, o))
  {
    hide AllocId, Addressed, Grown, TxResult, MessageFor;
    var t := TxWmi(s, f, o);
    assert forall i :: 0 <= i < |s.sent| ==> s.sent[i].frame in s.mapped;
    if t.sent != s.sent {
      assert forall i :: 0 <= i < |s.sent| ==> t.sent[i].frame == s.sent[i].frame;
      assert t.sent[|s.sent|].frame == f;
      assert t.mapped.Keys == (set i | 0 <= i < |t.sent| :: t.sent[i].frame);
    }
  }

  lemma TxWmiQueue(s: Tx, f: nat, o: Outcome)
    requires Queued(s) && ValidOutcome(o) && f in s.frames && s.frames[f].vif.Some?
    requires f !in s.queue
    ensures Queued(TxWmi(s, f, o))
  {
    hide AllocId, Addressed, Grown, TxResult, MessageFor;
  }

  /** Freeing a frame without an interface touches nothing that is queued or mapped. */
  lemma DropKeeps(s: Tx, f: nat)
    requires Inv(s) && f !in s.queue && f !in s.mapped
    ensures Inv(s.(frames := s.frames - {f}))
  {
    var t := s.(frames := s.frames - {f});
    forall i | 0 <= i < |t.sent|
      ensures Message(t, i)
    {
      assert Message(s, i);
    }
  }

  lemma StepInv(s: Tx, e: Event)
    requires Inv(s) && Enabled(s, e)
    ensures Inv(Step(s, e))
  {
    match e
    case Arrive(_, _, _, _) => QueueGrows(s, e);
    case Work(o) =>
      Dequeued(s);
      var f, t := s.queue[0], s.(queue := s.queue[1..]);
      if s.frames[f].vif.Some? {
        TxWmiMessages(t, f, o);
        TxWmiIds(t, f, o);
        TxWmiMappings(t, f, o);
        TxWmiQueue(t, f, o);
      } else {
        DropKeeps(t, f);
      }
  }

  ghost predicate Legal(s: Tx, es: seq<Event>)
    requires Inv(s)
    decreases |es|
  {
    es == [] || (Enabled(s, es[0]) && (StepInv(s, es[0]); Legal(Step(s, es[0]), es[1..])))
  }

  ghost function Run(s: Tx, es: seq<Event>): (t: Tx)
    requires Inv(s) && Legal(s, es)
    ensures Inv(t)
    decreases |es|
  {
    if es == [] then s else StepInv(s, es[0]); Run(Step(s, es[0]), es[1..])
  }

  function Start(): (s: Tx)
    ensures Inv(s)
  {
    Tx(map[], map[], [], map[], [])
  }

  lemma {:induction false} RunAppend(s: Tx, a: seq<Event>, e: Event)
    requires Inv(s) && Legal(s, a) && Enabled(Run(s, a), e)
    ensures Legal(s, a + [e]) && Run(s, a + [e]) == Step(Run(s, a), e)
    decreases |a|
  {
    if a == [] {
      assert a + [e] == [e];
      StepInv(s, e);
      assert [e][1..] == [];
    } else {
      StepInv(s, a[0]);
      assert (a + [e])[1..] == a[1..] + [e];
      RunAppend(Step(s, a[0]), a[1..], e);
    }
  }

  // ---- what every run keeps ---------------------------------------------------------

  /** In every reachable state, with failures anywhere, an id is live exactly when its frame is
      mapped, a mapped frame has one id, and live ids are below 512. */
  lemma LiveIffMapped(es: seq<Event>)
    requires Legal(Start(), es)
    ensures var s := Run(Start(), es);
            && (forall id :: id in s.idr ==> id < MAX_PENDING && s.idr[id] in s.mapped)
            && (forall f :: f in s.mapped ==> exists id :: id in s.idr && s.idr[id] == f)
            && (forall i, j :: i in s.idr && j in s.idr && i != j ==> s.idr[i] != s.idr[j])
  {
    var s := Run(Start(), es);
    forall f | f in s.mapped
      ensures exists id :: id in s.idr && s.idr[id] == f
    {
      var i :| 0 <= i < |s.sent| && s.sent[i].frame == f;
      assert i in s.idr && s.idr[i] == f;
    }
  }

  /** The firmware can act on what it was sent: in every reachable state the message behind live
      id k parses to id k, to the bus address under which the frame of that id is mapped, and to
      that frame's length and first bytes. */
  lemma MessagesNameLiveFrames(W: Wire, es: seq<Event>, k: nat)
    requires ValidWire(W) && Legal(Start(), es)
    requires k in Run(Start(), es).idr
    ensures var s := Run(Start(), es);
            s.idr[k] in s.frames && s.idr[k] in s.mapped && k < |s.sent|
    ensures var s := Run(Start(), es);
            var f := s.frames[s.idr[k]];
            var p := Parse(W, Framed(W, MGMT_TX_SEND_CMDID, Body(W, s.sent[k].msg)));
            && p.Some? && p.value.fixed.bufId == k && p.value.fixed.paddr == s.mapped[s.idr[k]]
            && p.value.fixed.frameLen == |f.bytes| && p.value.payload.data == f.bytes[..Min(|f.bytes|, DOWNLOAD_LEN)]
  {
    var s := Run(Start(), es);
    assert Message(s, k);
    MessageRoundTrip(W, MGMT_TX_SEND_CMDID, s.sent[k].msg);
  }

  /** A frame is sent exactly when fewer than 512 ever were and nothing on its way fails; each failure
      has its own error. */
  lemma WorkResult(s: Tx, o: Outcome)
    requires Ids(s) && ValidOutcome(o)
    ensures TxResult(s.idr, o) == 0 <==>
            |s.sent| < MAX_PENDING && o.idr && o.map_.Some? && o.pad.Some?
            && Verdict(o.attempts[Tries(o.attempts) - 1]) == 0
    ensures |s.sent| == MAX_PENDING || !o.idr ==> TxResult(s.idr, o) == -ENOSPC
    ensures |s.sent| < MAX_PENDING && o.idr && o.map_.None? ==> TxResult(s.idr, o) == -EIO
    ensures |s.sent| < MAX_PENDING && o.idr && o.map_.Some? && o.pad.None? ==> TxResult(s.idr, o) == -ENOMEM
  {
    NextId(s, o);
  }

  /** What a turn of the worker does to the frame at the head of the queue. A frame that is sent gains
      the next id and the mapping the DMA API granted, and its message carries its interface, that
      id, that address and its bytes, grown by the MIC exactly when it is protected and robust and
      not encapsulated by hardware. Otherwise ids, mappings and messages are what they were, and a
      frame without an interface is gone. */
  lemma WorkEffect(s: Tx, o: Outcome)
    requires Inv(s) && Enabled(s, Work(o))
    ensures var t, f, x := Step(s, Work(o)), s.queue[0], s.frames[s.queue[0]];
            && t.queue == s.queue[1..] && f !in s.mapped
            && (if x.vif.Some? && TxResult(s.idr, o) == 0 then
                  && o.map_.Some? && |s.sent| !in s.idr
                  && t.idr == s.idr[|s.sent| := f] && t.mapped == s.mapped[f := o.map_.value]
                  && (var grows := x.protect && x.robust && !x.encap;
                      t.sent == s.sent + [Sent(f, Mgmt(x.vif.value, |s.sent|, o.map_.value,
                                                       if grows then x.bytes + o.mic else x.bytes))])
                else
                  && t.idr == s.idr && t.mapped == s.mapped && t.sent == s.sent
                  && (x.vif.None? ==> f !in t.frames))
  {
    NextId(s, o);
  }

  /** Nothing ever takes an id or a mapping back once its frame was sent. */
  lemma {:induction false} RunGrows(s: Tx, es: seq<Event>)
    requires Inv(s) && Legal(s, es)
    ensures var t := Run(s, es);
            && s.sent <= t.sent
            && forall f :: f in s.mapped ==> f in t.mapped && t.mapped[f] == s.mapped[f]
    decreases |es|
  {
    if es != [] {
      StepInv(s, es[0]);
      if es[0].Work? { WorkEffect(s, es[0].o); }
      RunGrows(Step(s, es[0]), es[1..]);
    }
  }

  /** How many frames a run sends. */
  ghost function Successes(s: Tx, es: seq<Event>): nat
    requires Inv(s) && Legal(s, es)
    decreases |es|
  {
    if es == [] then 0
    else
      StepInv(s, es[0]);
      Successes(Step(s, es[0]), es[1..]) +
      if es[0].Work? && s.frames[s.queue[0]].vif.Some? && TxResult(s.idr, es[0].o) == 0 then 1 else 0
  }

  lemma {:induction false} SuccessesCounted(s: Tx, es: seq<Event>)
    requires Inv(s) && Legal(s, es)
    ensures |Run(s, es).sent| == |s.sent| + Successes(s, es)
    decreases |es|
  {
    if es != [] {
      StepInv(s, es[0]);
      SuccessesCounted(Step(s, es[0]), es[1..]);
      if es[0].Work? { WorkEffect(s, es[0].o); }
    }
  }

  /** A frame with an interface and an outcome in which nothing fails. */
  function PlainFrame(): Frame { Frame(Some(0), false, false, false, [], 0) }

  function Success(): Outcome { Outcome(true, [], Some(0), Some(0), [Attempt(true, 0, false)]) }

  lemma SuccessSends(idr: map<nat, nat>)
    ensures ValidOutcome(Success()) && ValidFrame(PlainFrame())
    ensures FirstFree(idr, 0).Some? ==> TxResult(idr, Success()) == 0
  {
    hide FirstFree;
    assert Tries(Success().attempts) == 1;
  }

  lemma SendQueued(s: Tx, k: nat)
    requires Inv(s) && |s.sent| == k < MAX_PENDING && s.queue == [k] && k in s.frames && s.frames[k] == PlainFrame()
    requires forall f :: f in s.mapped ==> f < k
    ensures ValidOutcome(Success())
    ensures var t := Step(s, Work(Success()));
            |t.sent| == k + 1 && t.queue == [] && forall f :: f in t.mapped ==> f < k + 1
  {
    SuccessSends(s.idr);
    WorkEffect(s, Success());
    WorkResult(s, Success());
  }

  /** One more frame is queued and sent. */
  lemma FillOnce(s: Tx, k: nat)
    requires Inv(s) && |s.sent| == k < MAX_PENDING && s.queue == [] && forall f :: f in s.mapped ==> f < k
    ensures var a, w := Arrive(k, PlainFrame(), false, 0), Work(Success());
            && Enabled(s, a) && Inv(Step(s, a)) && Enabled(Step(s, a), w)
            && var t := Step(Step(s, a), w);
            && |t.sent| == k + 1 && t.queue == [] && forall f :: f in t.mapped ==> f < k + 1
  {
    var a := Arrive(k, PlainFrame(), false, 0);
    SuccessSends(s.idr);
    StepInv(s, a);
    var m := Step(s, a);
    assert m == s.(queue := [k], frames := s.frames[k := PlainFrame()]);
    SendQueued(m, k);
  }

  /** The run that sends k frames. */
  lemma {:induction false} FillTable(k: nat) returns (es: seq<Event>)
    requires k <= MAX_PENDING
    ensures Legal(Start(), es)
    ensures var s := Run(Start(), es); |s.sent| == k && s.queue == [] && forall f :: f in s.mapped ==> f < k
    decreases k
  {
    if k == 0 {
      es := [];
    } else {
      es := FillTable(k - 1);
      var s := Run(Start(), es);
      FillOnce(s, k - 1);
      var a, w := Arrive(k - 1, PlainFrame(), false, 0), Work(Success());
      RunAppend(Start(), es, a);
      RunAppend(Start(), es + [a], w);
      es := es + [a] + [w];
    }
  }

  ghost predicate CanSend(k: nat) {
    exists es: seq<Event> :: Legal(Start(), es) && Successes(Start(), es) == k
  }

  /** No completion path returns an id: runs that send k frames exist exactly for k up to 512, and
      after one that sent 512, whatever else happens, every further frame with an interface is
      refused with -ENOSPC. */
  lemma TableRunsOut(k: nat)
    ensures CanSend(k) <==> k <= MAX_PENDING
    ensures forall es, o :: Legal(Start(), es) && ValidOutcome(o) && Successes(Start(), es) == MAX_PENDING ==>
              TxResult(Run(Start(), es).idr, o) == -ENOSPC
  {
    if k <= MAX_PENDING {
      var es := FillTable(k);
      SuccessesCounted(Start(), es);
      assert CanSend(k);
    }
    forall es | Legal(Start(), es)
      ensures Successes(Start(), es) <= MAX_PENDING
    {
      SuccessesCounted(Start(), es);
    }
    forall es, o | Legal(Start(), es) && ValidOutcome(o) && Successes(Start(), es) == MAX_PENDING
      ensures TxResult(Run(Start(), es).idr, o) == -ENOSPC
    {
      SuccessesCounted(Start(), es);
      NextId(Run(Start(), es), o);
    }
  }

  // ---- the worker -------------------------------------------------------------------

  /** A frame handed to the driver while the worker runs. */
  datatype Offer = Offer(f: nat, frame: Frame, prbRsp: bool, pending: int)

  ghost predicate ValidOffers(fs: seq<Offer>) {
    forall i :: 0 <= i < |fs| ==> ValidFrame(fs[i].frame)
  }

  function Offered(fs: seq<Offer>): (es: seq<Event>)
    ensures |es| == |fs|
  {
    seq(|fs|, i requires 0 <= i < |fs| => Arrive(fs[i].f, fs[i].frame, fs[i].prbRsp, fs[i].pending))
  }

  function At(arrivals: seq<seq<Offer>>, i: nat): seq<Offer> {
    if i < |arrivals| then arrivals[i] else []
  }

  /** The events of k turns: before each turn its arrivals, then the next frame with its outcome. */
  function Script(arrivals: seq<seq<Offer>>, outcomes: nat -> Outcome, k: nat): seq<Event> {
    if k == 0 then Offered(At(arrivals, 0))
    else Script(arrivals, outcomes, k - 1) + [Work(outcomes(k - 1))] + Offered(At(arrivals, k))
  }

  lemma ScriptSteps(arrivals: seq<seq<Offer>>, outcomes: nat -> Outcome, k: nat)
    ensures Script(arrivals, outcomes, 0) == [] + Offered(At(arrivals, 0))
    ensures Script(arrivals, outcomes, k + 1)
              == Script(arrivals, outcomes, k) + [Work(outcomes(k))] + Offered(At(arrivals, k + 1))
  {
  }

  lemma TableRestored(idr: map<nat, nat>, id: nat, f: nat)
    requires id !in idr
    ensures idr[id := f] - {id} == idr
  {
  }

  lemma MappingRestored(mapped: map<nat, nat>, f: nat, a: nat)
    requires f !in mapped
    ensures mapped[f := a] - {f} == mapped
  {
  }

  class Mac {
    var idr: map<nat, nat>
    var mapped: map<nat, nat>
    var queue: seq<nat>
    var frames: map<nat, Frame>
    ghost var sent: seq<Sent>

    ghost function State(): Tx
      reads this
    {
      Tx(idr, mapped, queue, frames, sent)
    }

    ghost predicate Valid()
      reads this
    {
      Inv(State())
    }

    constructor ()
      ensures State() == Start() && Valid()
    {
      idr, mapped, queue, frames, sent := map[], map[], [], map[], [];
    }

    /** From the mapping on: the command is sent, or the mapping is given back. */
    method MapAndSend(W: Wire, f: nat, id: nat, o: Outcome) returns (ret: int, skb: SkBuff?)
      requires ValidWire(W) && ValidOutcome(o) && f !in mapped && id < MAX_PENDING
      requires f in frames && frames[f].vif.Some? && frames[f].vif.value < TWO32 && |frames[f].bytes| < TWO32
      modifies this`mapped, this`frames, this`sent
      ensures ret == if o.map_.None? then -EIO else SendResult(o)
      ensures frames == old(frames)[f := Addressed(old(frames[f]), o)]
      ensures ret == 0 ==> o.map_.Some? && mapped == old(mapped)[f := o.map_.value]
      ensures ret != 0 ==> mapped == old(mapped)
      ensures sent == if ret == 0 then old(sent) + [Sent(f, MessageFor(frames[f], id))] else old(sent)
      ensures ret == 0 ==> skb != null && skb.Valid() && skb.mapped
      ensures ret == 0 ==> skb.Bytes() == Framed(W, MGMT_TX_SEND_CMDID, Body(W, MessageFor(frames[f], id)))
    {
      hide Framed, Parse, Body;
      if o.map_.None? { return -EIO, null; }
      MappingRestored(mapped, f, o.map_.value);
      mapped := mapped[f := o.map_.value];
      frames := frames[f := frames[f].(paddr := o.map_.value)];
      ret, skb := MgmtSend(W, MessageFor(frames[f], id), o.pad, o.attempts);
      if ret == 0 {
        sent := sent + [Sent(f, MessageFor(frames[f], id))];
      } else {
        mapped := mapped - {f};
      }
    }

    /** wireless_simu_mgmt_tx_wmi. On success the frame has a new id and is mapped, and the command
        handed over names that id, the address the DMA API granted, and the frame; a failure leaves
        ids, mappings and history as they were, and only the frame's own record may differ. */
    method MgmtTxWmi(W: Wire, f: nat, o: Outcome) returns (ret: int, skb: SkBuff?)
      requires ValidWire(W) && ValidOutcome(o)
      requires f in frames && frames[f].vif.Some? && ValidFrame(frames[f]) && f !in mapped
      modifies this
      ensures State() == TxWmi(old(State()), f, o) && ret == TxResult(old(idr), o)
      ensures ret != 0 ==> idr == old(idr) && mapped == old(mapped) && sent == old(sent)
      ensures ret == 0 ==> skb != null && skb.Valid() && skb.mapped && o.map_.Some? && |sent| == |old(sent)| + 1
      ensures ret == 0 ==>
                var m := sent[|sent| - 1].msg;
                && skb.Bytes() == Framed(W, MGMT_TX_SEND_CMDID, Body(W, m))
                && m.bufId !in old(idr) && idr == old(idr)[m.bufId := f] && mapped == old(mapped)[f := o.map_.value]
                && m.paddr == o.map_.value && Some(m.vif) == old(frames[f]).vif
                && m.frame == old(frames[f]).bytes + (if Protected(old(frames[f])) then o.mic else [])
    {
      hide Framed, Parse, Body, AllocId, SendResult, Grown;
      skb := null;
      var id := AllocId(idr, o);
      if id.None? { return -ENOSPC, null; }
      TableRestored(idr, id.value, f);
      idr := idr[id.value := f];
      frames := frames[f := Grown(frames[f], o)];
      ret, skb := MapAndSend(W, f, id.value, o);
      if ret != 0 {
        idr := idr - {id.value};
      }
    }

    /** wireless_simu_mac_mgmt_tx: the frame goes to the end of the queue, or is refused because
        it is one probe response too many or the queue is full, which it never exceeds. */
    method QueueTx(f: nat, frame: Frame, prbRsp: bool, pending: int) returns (ret: int)
      requires Valid() && ValidFrame(frame) && !Holds(State(), f)
      modifies this
      ensures ret == 0 || ret == -ENOSPC
      ensures ret == 0 <==> |old(queue)| < 512 && (prbRsp ==> pending <= 48)
      ensures queue == if ret == 0 then old(queue) + [f] else old(queue)
      ensures |queue| <= 512
      ensures Valid() && State() == Step(old(State()), Arrive(f, frame, prbRsp, pending))
    {
      QueueGrows(State(), Arrive(f, frame, prbRsp, pending));
      if prbRsp && pending > PRB_RSP_DROP_THRESHOLD { return -ENOSPC; }
      if |queue| >= MAX_PENDING { return -ENOSPC; }
      queue, frames := queue + [f], frames[f := frame];
      ret := 0;
    }

    /** One turn of the worker's loop. */
    method WorkOne(W: Wire, o: Outcome) returns (ret: int)
      requires ValidWire(W) && Valid() && Enabled(State(), Work(o))
      modifies this
      ensures Valid() && State() == Step(old(State()), Work(o)) && queue == old(queue)[1..]
    {
      StepInv(State(), Work(o));
      Dequeued(State());
      var f := queue[0];
      queue := queue[1..];
      ret := 0;
      if frames[f].vif.None? {
        frames := frames - {f};
      } else {
        var skb;
        ret, skb := MgmtTxWmi(W, f, o);
      }
    }

    /** wireless_simu_mgmt_tx_work_func: while frames of arrivals[i] come in before turn i, the
        worker goes on until the queue is empty. What it does is the script of those arrivals and of
        the given outcomes, turn by turn, up to the first turn that finds the queue empty. */
    method WorkFunc(W: Wire, arrivals: seq<seq<Offer>>, outcomes: nat -> Outcome) returns (turns: nat)
      requires ValidWire(W) && Valid() && (forall i: nat :: ValidOutcome(outcomes(i)))
      requires forall i :: 0 <= i < |arrivals| ==> ValidOffers(arrivals[i])
      modifies this
      ensures Valid() && queue == []
      ensures Legal(old(State()), Script(arrivals, outcomes, turns))
      ensures State() == Run(old(State()), Script(arrivals, outcomes, turns))
    {
      hide Valid, ValidOutcome, Legal, Run, Script;
      ghost var s := State();
      StartsHere();
      ScriptSteps(arrivals, outcomes, 0);
      turns := 0;
      ghost var es := QueueAll(At(arrivals, 0), s, []);
      while queue != []
        invariant Valid() && es == Script(arrivals, outcomes, turns) && Legal(s, es) && State() == Run(s, es)
        decreases if turns < |arrivals| then |arrivals| - turns else 0, |queue|
      {
        ScriptSteps(arrivals, outcomes, turns);
        es := Turn(W, outcomes(turns), At(arrivals, turns + 1), s, es);
        turns := turns + 1;
      }
    }

    /** One turn, and what comes in behind it. */
    method Turn(W: Wire, o: Outcome, fs: seq<Offer>, ghost s: Tx, ghost es: seq<Event>) returns (ghost ds: seq<Event>)
      requires ValidWire(W) && Valid() && ValidOutcome(o) && ValidOffers(fs) && queue != []
      requires Inv(s) && Legal(s, es) && State() == Run(s, es)
      modifies this
      ensures Valid() && ds == es + [Work(o)] + Offered(fs) && Legal(s, ds) && State() == Run(s, ds)
      ensures fs == [] ==> queue == old(queue)[1..]
    {
      hide Queued, Ids, Mappings, Messages, TxWmi;
      RunAppend(s, es, Work(o));
      var ret := WorkOne(W, o);
      ds := QueueAll(fs, s, es + [Work(o)]);
    }

    lemma StartsHere()
      requires Valid()
      ensures Inv(State()) && Legal(State(), []) && Run(State(), []) == State()
    {
    }

    /** What comes in between two turns. */
    method QueueAll(fs: seq<Offer>, ghost s: Tx, ghost es: seq<Event>) returns (ghost ds: seq<Event>)
      requires Valid() && Inv(s) && Legal(s, es) && State() == Run(s, es) && ValidOffers(fs)
      modifies this
      ensures Valid() && ds == es + Offered(fs) && Legal(s, ds) && State() == Run(s, ds)
      ensures fs == [] ==> queue == old(queue)
    {
      hide Queued, Ids, Mappings, Messages, TxWmi;
      ds := es;
      for i := 0 to |fs|
        invariant Valid() && ds == es + Offered(fs)[..i] && Legal(s, ds) && State() == Run(s, ds)
        invariant fs == [] ==> queue == old(queue)
      {
        var Offer(f, frame, prbRsp, pending) := fs[i];
        RunAppend(s, ds, Offered(fs)[i]);
        ds := ds + [Offered(fs)[i]];
        if f !in queue && f !in mapped {
          var ret := QueueTx(f, frame, prbRsp, pending);
        }
      }
    }
  }
}
