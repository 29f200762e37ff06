/** Sending a WMI command: the socket buffer it lives in, the two headers pushed into reserved
    headroom, the DMA mapping and its rollback, and the retry loop around them. */
module Wmi {
  import opened Bits
  import opened Common
  import opened Framing

  lemma OverwriteZeros(x: seq<nat>, w: seq<nat>, k: nat)
    requires |w| <= k
    ensures Overwrite(x + Zeros(k), |x|, w) == x + (w + Zeros(k - |w|))
  {
  }

  lemma AppendWord(ws: seq<nat>, v: nat)
    ensures Words(ws + [v]) == Words(ws) + Le32(v)
  {
    assert (ws + [v])[..|ws|] == ws;
  }

  // ---- socket buffers ---------------------------------------------------------------

  /** Where a message starts, its bytes, and whether it is mapped for the device. */
  datatype View = MkView(data: nat, bytes: seq<nat>, mapped: bool)

  /** A socket buffer: bytes data .. data + len of buf are the message, what lies before is
      headroom, what lies after is tailroom. */
  class SkBuff {
    const buf: array<nat>
    var data: nat
    var len: nat
    var mapped: bool

    ghost predicate Valid()
      reads this
    {
      data + len <= buf.Length
    }

    function Bytes(): (b: seq<nat>)
      requires Valid()
      reads this, buf
      ensures |b| == len
    {
      buf[data..data + len]
    }

    /** What a failed attempt must give back. */
    ghost function View(): View
      requires Valid()
      reads this, buf
    {
      MkView(data, Bytes(), mapped)
    }

    /** dev_alloc_skb: room for size bytes behind pad bytes of headroom the kernel adds; the
        contents are whatever was in that memory. */
    constructor (size: nat, pad: nat)
      ensures Valid() && fresh(buf) && buf.Length == pad + size
      ensures data == pad && len == 0 && !mapped
    {
      buf := new nat[pad + size];
      data, len, mapped := pad, 0, false;
    }

    method Reserve(k: nat)
      requires Valid() && len == 0 && data + k <= buf.Length
      modifies this
      ensures Valid() && data == old(data) + k && len == 0 && mapped == old(mapped)
    {
      data := data + k;
    }

    method Put(k: nat)
      requires Valid() && data + len + k <= buf.Length
      modifies this
      ensures Valid() && data == old(data) && len == old(len) + k && mapped == old(mapped)
      ensures Bytes()[..old(len)] == old(Bytes())
    {
      ghost var b := Bytes();
      len := len + k;
      SameSeq(Bytes()[..|b|], b);
    }

    /** skb_push; the kernel panics when the headroom is too small, so callers owe it. */
    method Push(k: nat)
      requires Valid() && k <= data
      modifies this
      ensures Valid() && data == old(data) - k && len == old(len) + k && mapped == old(mapped)
      ensures Bytes()[k..] == old(Bytes())
    {
      ghost var b := Bytes();
      data, len := data - k, len + k;
      SameSeq(Bytes()[k..], b);
    }

    /** skb_pull. */
    method Pull(k: nat)
      requires Valid() && k <= len
      modifies this
      ensures Valid() && data == old(data) + k && len == old(len) - k && mapped == old(mapped)
      ensures Bytes() == old(Bytes())[k..]
    {
      ghost var b := Bytes();
      data, len := data + k, len - k;
      SameSeq(Bytes(), b[k..]);
    }

    /** memcpy and memset into the message. */
    method Store(off: nat, w: seq<nat>)
      requires Valid() && off + |w| <= len
      modifies buf
      ensures Bytes() == Overwrite(old(Bytes()), off, w)
    {
      ghost var b := Bytes();
      forall i | 0 <= i < |w| {
        buf[data + off + i] := w[i];
      }
      OverwriteIs(b, off, w, Bytes());
    }

    method DmaMap()
      requires Valid() && !mapped
      modifies this`mapped
      ensures mapped
    {
      mapped := true;
    }

    method DmaUnmap()
      requires Valid() && mapped
      modifies this`mapped
      ensures !mapped
    {
      mapped := false;
    }
  }

  // ---- one attempt ------------------------------------------------------------------

  /** What the outside does to one attempt: whether the mapping succeeds, what the copy engine
      returns, and whether the crash flag is set when it is looked at. */
  datatype Attempt = Attempt(maps: bool, ce: int, crash: bool)

  function HtcResult(a: Attempt): int {
    if !a.maps then -EIO else a.ce
  }

  function Verdict(a: Attempt): int {
    if HtcResult(a) != 0 && a.crash then -ESHUTDOWN else HtcResult(a)
  }

  /** What an attempt answers: a failed mapping is -EIO, otherwise the copy engine's own result
      counts, and the crash flag turns any failure into -ESHUTDOWN. */
  lemma Verdicts(a: Attempt)
    ensures !a.maps && !a.crash ==> Verdict(a) == -5
    ensures a.maps && (!a.crash || a.ce == 0) ==> Verdict(a) == a.ce
    ensures a.crash && (!a.maps || a.ce != 0) ==> Verdict(a) == -108
    ensures Verdict(a) == 0 <==> a.maps && a.ce == 0
    ensures Verdict(a) == -105 <==> a.maps && a.ce == -105 && !a.crash
  {
  }

  /** The message with the HTC header in front of it. */
  function HtcFramed(W: Wire, body: seq<nat>): (b: seq<nat>)
    requires ValidField(W.endpoint) && ValidField(W.payload)
    ensures |b| == HTC_HDR + |body| && b[HTC_HDR..] == body
  {
    Words([HtcInfo(W, |body|), 0]) + body
  }

  /** wireless_simu_htc_send: all or nothing. */
  method HtcSend(W: Wire, skb: SkBuff, a: Attempt) returns (ret: int)
    requires ValidField(W.endpoint) && ValidField(W.payload)
    requires skb.Valid() && skb.data >= HTC_HDR && !skb.mapped
    modifies skb, skb.buf
    ensures skb.Valid() && ret == HtcResult(a) && skb.mapped == (ret == 0)
    ensures skb.data == old(skb.data) - if ret == 0 then HTC_HDR else 0
    ensures skb.Bytes() == if ret == 0 then HtcFramed(W, old(skb.Bytes())) else old(skb.Bytes())
  {
    hide HtcFramed, HtcInfo, Le32, Overwrite;
    ghost var body := skb.Bytes();
    skb.Push(HTC_HDR);
    HtcStored(W, body, skb.Bytes());
    skb.Store(0, Le32(HtcInfo(W, skb.len - HTC_HDR)));
    skb.Store(4, Le32(0));
    if !a.maps {
      ret := -EIO;
    } else {
      skb.DmaMap();
      ret := a.ce;
      if ret != 0 {
        skb.DmaUnmap();
      }
    }
    if ret != 0 {
      skb.Pull(HTC_HDR);
    }
  }

  /** The two stores into pushed headroom, whatever it held, make the header. */
  lemma HtcStored(W: Wire, body: seq<nat>, b: seq<nat>)
    requires ValidField(W.endpoint) && ValidField(W.payload)
    requires |b| == HTC_HDR + |body| && b[HTC_HDR..] == body
    ensures Overwrite(Overwrite(b, 0, Le32(HtcInfo(W, |body|))), 4, Le32(0)) == HtcFramed(W, body)
  {
    hide HtcFramed, HtcInfo, Le32, Overwrite;
    var x, y := Le32(HtcInfo(W, |body|)), Le32(0);
    var c := Overwrite(b, 0, x);
    OverwriteSlice(b, 0, x, HTC_HDR, |body|);
    OverwriteSlice(c, 4, y, HTC_HDR, |body|);
    OverwriteSlice(c, 4, y, 0, 4);
    HtcHeader(W, body, Overwrite(c, 4, y));
  }

  lemma HtcHeader(W: Wire, body: seq<nat>, b: seq<nat>)
    requires ValidField(W.endpoint) && ValidField(W.payload)
    requires |b| == HTC_HDR + |body| && b[HTC_HDR..] == body
    requires b[..4] == Le32(HtcInfo(W, |body|)) && b[4..8] == Le32(0)
    ensures b == HtcFramed(W, body)
  {
    AppendWord([], HtcInfo(W, |body|));
    AppendWord([HtcInfo(W, |body|)], 0);
    assert [] + [HtcInfo(W, |body|)] == [HtcInfo(W, |body|)];
    assert [HtcInfo(W, |body|)] + [0] == [HtcInfo(W, |body|), 0];
    assert b == b[..4] + b[4..8] + b[8..];
  }

  /** The WMI header inside the HTC header: nested framing is the three-word prefix. */
  lemma FramedNests(W: Wire, cmdId: nat, body: seq<nat>)
    requires ValidWire(W)
    ensures HtcFramed(W, Le32(WmiWord(W, cmdId)) + body) == Framed(W, cmdId, body)
  {
    var h, c := HtcInfo(W, WMI_HDR + |body|), WmiWord(W, cmdId);
    assert [h, 0] + [c] == [h, 0, c];
    AppendWord([h, 0], c);
    Reassociate(Words([h, 0]), Le32(c), body);
  }

  lemma Reassociate(x: seq<nat>, y: seq<nat>, z: seq<nat>)
    ensures x + (y + z) == x + y + z
  {
  }

  /** The view after an attempt that answered ret: both headers and a mapping, or nothing new. */
  ghost function After(W: Wire, cmdId: nat, v: View, ret: int): View
    requires ValidWire(W) && v.data >= HTC_HDR + WMI_HDR
  {
    if ret == 0 then MkView(v.data - (HTC_HDR + WMI_HDR), Framed(W, cmdId, v.bytes), true) else v
  }

  /** wireless_simu_wmi_cmd_send_nowait: both headers or none. */
  method CmdSendNowait(W: Wire, skb: SkBuff, cmdId: nat, a: Attempt) returns (ret: int)
    requires ValidWire(W)
    requires skb.Valid() && skb.data >= HTC_HDR + WMI_HDR && !skb.mapped
    modifies skb, skb.buf
    ensures skb.Valid() && ret == HtcResult(a)
    ensures skb.View() == After(W, cmdId, old(skb.View()), ret)
  {
    ghost var body := skb.Bytes();
    skb.Push(WMI_HDR);
    var cmd := Or(0, FieldPrep(W.cmd, cmdId));
    skb.Store(0, Le32(cmd));
    assert skb.Bytes() == Le32(cmd) + body;
    FramedNests(W, cmdId, body);
    ret := HtcSend(W, skb, a);
    if ret != 0 {
      skb.Pull(WMI_HDR);
    }
  }

  // ---- the retry loop ---------------------------------------------------------------

  /** How many times the wait evaluates its condition when its evaluations would go as in
      attempts and the last of them is the one after the timeout. */
  function Tries(attempts: seq<Attempt>): (k: nat)
    requires attempts != []
    ensures 1 <= k <= |attempts|
    ensures forall i :: 0 <= i < k - 1 ==> Verdict(attempts[i]) == -ENOBUFS
    ensures Verdict(attempts[k - 1]) == -ENOBUFS ==> k == |attempts|
  {
    if |attempts| == 1 || Verdict(attempts[0]) != -ENOBUFS then 1
    else
      var k := Tries(attempts[1..]);
      assert forall i :: 1 <= i < |attempts| ==> attempts[i] == attempts[1..][i - 1];
      k + 1
  }

  lemma {:induction false} TriesUnique(attempts: seq<Attempt>, k: nat)
    requires 1 <= k <= |attempts|
    requires forall i :: 0 <= i < k - 1 ==> Verdict(attempts[i]) == -ENOBUFS
    requires Verdict(attempts[k - 1]) == -ENOBUFS ==> k == |attempts|
    ensures Tries(attempts) == k
  {
    var t := Tries(attempts);
    assert !(t < k) && !(k < t);
  }

  /** The first attempt that is not answered -ENOBUFS without a crash is the last one made. */
  lemma RetriesEnd(attempts: seq<Attempt>, i: nat)
    requires i < |attempts|
    ensures !(attempts[i].maps && attempts[i].ce == -105 && !attempts[i].crash) ==> Tries(attempts) <= i + 1
    ensures (forall j :: 0 <= j <= i ==> attempts[j].maps && attempts[j].ce == -105 && !attempts[j].crash) ==>
              Tries(attempts) >= if i + 1 < |attempts| then i + 2 else |attempts|
  {
    var t := Tries(attempts);
    Verdicts(attempts[i]);
    Verdicts(attempts[t - 1]);
  }

  /** wireless_simu_wmi_cmd_send: for any sequence of outcomes, every attempt but the last failed
      and left the buffer as it was; a success is the last and leaves exactly both headers. */
  method CmdSend(W: Wire, skb: SkBuff, cmdId: nat, attempts: seq<Attempt>) returns (ret: int, tried: nat)
    requires ValidWire(W) && attempts != []
    requires skb.Valid() && skb.data >= HTC_HDR + WMI_HDR && !skb.mapped
    modifies skb, skb.buf
    ensures skb.Valid() && tried == Tries(attempts) && ret == Verdict(attempts[tried - 1])
    ensures forall i :: 0 <= i < tried - 1 ==> HtcResult(attempts[i]) != 0
    ensures skb.View() == After(W, cmdId, old(skb.View()), ret)
  {
    hide Framed;
    ret, tried := -ENOBUFS, 0;
    while tried < |attempts| && ret == -ENOBUFS
      invariant 0 <= tried <= |attempts|
      invariant skb.Valid() && skb.View() == After(W, cmdId, old(skb.View()), ret)
      invariant forall i :: 0 <= i < tried - 1 ==> Verdict(attempts[i]) == -ENOBUFS
      invariant if tried == 0 then ret == -ENOBUFS else ret == Verdict(attempts[tried - 1])
      decreases |attempts| - tried
    {
      ret := CmdSendNowait(W, skb, cmdId, attempts[tried]);
      if ret != 0 && attempts[tried].crash {
        ret := -ESHUTDOWN;
      }
      tried := tried + 1;
    }
    TriesUnique(attempts, tried);
  }

  // ---- building the command ---------------------------------------------------------

  /** wireless_simu_htc_alloc_skb; pad is None when the allocation fails. */
  method HtcAllocSkb(size: nat, pad: Option<nat>) returns (skb: SkBuff?)
    ensures skb == null <==> pad.None?
    ensures skb != null ==> fresh(skb) && fresh(skb.buf) && skb.Valid() && !skb.mapped && skb.len == 0
    ensures skb != null ==> skb.data >= HTC_HDR && skb.buf.Length == skb.data + size
  {
    if pad.None? { return null; }
    skb := new SkBuff(size + HTC_HDR, pad.value);
    skb.Reserve(HTC_HDR);
  }

  /** wireless_simu_wmi_alloc_skb: zeroed, rounded up to words, with room for both headers. */
  method WmiAllocSkb(len: nat, pad: Option<nat>) returns (skb: SkBuff?)
    ensures skb == null <==> pad.None?
    ensures skb != null ==> fresh(skb) && fresh(skb.buf) && skb.Valid() && !skb.mapped
    ensures skb != null ==> skb.data >= HTC_HDR + WMI_HDR && skb.Bytes() == Zeros(Roundup4(len))
  {
    var roundLen := Roundup4(len);
    skb := HtcAllocSkb(WMI_HDR + roundLen, pad);
    if skb == null { return; }
    skb.Reserve(WMI_HDR);
    skb.Put(roundLen);
    skb.Store(0, Zeros(roundLen));
  }

  /** The buffer once the first i fields ws are stored, k zero bytes behind the last field. */
  ghost function Filled(ws: seq<nat>, i: nat, k: nat): seq<nat>
    requires i <= |ws|
  {
    Words(ws[..i]) + Zeros(4 * (|ws| - i) + k)
  }

  lemma FillNext(ws: seq<nat>, i: nat, k: nat)
    requires i < |ws|
    ensures Overwrite(Filled(ws, i, k), 4 * i, Le32(ws[i])) == Filled(ws, i + 1, k)
  {
    OverwriteZeros(Words(ws[..i]), Le32(ws[i]), 4 * (|ws| - i) + k);
    AppendWord(ws[..i], ws[i]);
    assert ws[..i] + [ws[i]] == ws[..i + 1];
  }

  /** Stores field i of a command. */
  method StoreField(skb: SkBuff, i: nat, v: nat, ghost ws: seq<nat>, ghost k: nat)
    requires skb.Valid() && i < |ws| && v == ws[i]
    requires skb.Bytes() == Filled(ws, i, k)
    modifies skb.buf
    ensures skb.Bytes() == Filled(ws, i + 1, k)
  {
    FillNext(ws, i, k);
    skb.Store(4 * i, Le32(v));
  }

  method StoreIds(skb: SkBuff, m: Mgmt, t0: nat, ghost ws: seq<nat>, ghost k: nat)
    requires skb.Valid() && |ws| == 10 && ws[0] == t0 && ws[1] == m.vif && ws[2] == m.bufId && ws[3] == 0
    requires skb.Bytes() == Filled(ws, 0, k)
    modifies skb.buf
    ensures skb.Bytes() == Filled(ws, 4, k)
  {
    StoreField(skb, 0, t0, ws, k);
    StoreField(skb, 1, m.vif, ws, k);
    StoreField(skb, 2, m.bufId, ws, k);
    StoreField(skb, 3, 0, ws, k);
  }

  /** Stores the command's fields and the byte array's header, one after the other. */
  method StoreCommand(skb: SkBuff, m: Mgmt, t0: nat, t1: nat, ghost ws: seq<nat>, ghost k: nat)
    requires skb.Valid() && ws == Command(t0, m, t1)
    requires skb.Bytes() == Filled(ws, 0, k)
    modifies skb.buf
    ensures skb.Bytes() == Filled(ws, 10, k)
  {
    StoreIds(skb, m, t0, ws, k);
    StoreField(skb, 4, Lower(m.paddr), ws, k);
    StoreField(skb, 5, Upper(m.paddr), ws, k);
    StoreField(skb, 6, |m.frame|, ws, k);
    StoreField(skb, 7, |Download(m)|, ws, k);
    StoreField(skb, 8, 0, ws, k);
    StoreField(skb, 9, t1, ws, k);
  }

  /** Ten fields and data d over zeroed memory. */
  lemma BodyBuilt(ws: seq<nat>, d: seq<nat>)
    requires |ws| == 10
    ensures var r := Roundup4(|d|);
            && Filled(ws, 0, r) == Zeros(Roundup4(CMD_SIZE + TLV_HDR + r))
            && |Filled(ws, 10, r)| == CMD_SIZE + TLV_HDR + r
            && Overwrite(Filled(ws, 10, r), CMD_SIZE + TLV_HDR, d) == Words(ws) + (d + Zeros(r - |d|))
  {
    var r := Roundup4(|d|);
    assert Roundup4(40 + r) == 40 + r;
    FilledNone(ws, r);
    FilledAll(ws, r);
    OverwriteZeros(Words(ws), d, r);
  }

  /** wireless_simu_wmi_mgmt_send up to the send: the command in a fresh buffer. */
  method MgmtBuild(W: Wire, m: Mgmt, pad: Option<nat>) returns (skb: SkBuff?)
    requires ValidWire(W)
    ensures skb == null <==> pad.None?
    ensures skb != null ==> fresh(skb) && fresh(skb.buf) && skb.Valid() && !skb.mapped
    ensures skb != null ==> skb.data >= HTC_HDR + WMI_HDR && skb.Bytes() == Body(W, m)
  {
    hide Words, Filled, Overwrite, TlvWord, Download;
    var d := Download(m);
    var len := CMD_SIZE + TLV_HDR + Roundup4(|d|);
    skb := WmiAllocSkb(len, pad);
    if skb == null { return; }
    ghost var ws := CommandWords(W, m);
    BodyBuilt(ws, d);
    StoreCommand(skb, m, TlvWord(W, TAG_MGMT_TX_SEND, CMD_SIZE - TLV_HDR), TlvWord(W, TAG_ARRAY_BYTE, |d|),
                 ws, Roundup4(|d|));
    skb.Store(CMD_SIZE + TLV_HDR, d);
  }

  lemma FilledNone(ws: seq<nat>, k: nat)
    ensures Filled(ws, 0, k) == Zeros(4 * |ws| + k)
  {
    var none := ws[..0];
    assert none == [] && Words(none) == [];
  }

  lemma FilledAll(ws: seq<nat>, k: nat)
    ensures Filled(ws, |ws|, k) == Words(ws) + Zeros(k)
  {
    assert ws[..|ws|] == ws;
  }

  /** wireless_simu_wmi_mgmt_send: the frame's command is built in a fresh buffer and sent; when
      that succeeds, what was handed to the copy engine parses back to the frame. */
  method MgmtSend(W: Wire, m: Mgmt, pad: Option<nat>, attempts: seq<Attempt>)
      returns (ret: int, skb: SkBuff?)
    requires ValidWire(W) && ValidMgmt(m) && attempts != []
    ensures ret == if pad.None? then -ENOMEM else Verdict(attempts[Tries(attempts) - 1])
    ensures skb == null <==> pad.None?
    ensures skb != null ==> fresh(skb) && fresh(skb.buf) && skb.Valid() && skb.mapped == (ret == 0)
    ensures skb != null && ret == 0 ==>
              && skb.Bytes() == Framed(W, MGMT_TX_SEND_CMDID, Body(W, m))
              && Parse(W, skb.Bytes()) ==
                   Some(Parsed(MGMT_TX_SEND_CMDID, TAG_MGMT_TX_SEND,
                               Fixed(m.vif, m.bufId, m.paddr, |m.frame|, |Download(m)|),
                               ByteArray(TAG_ARRAY_BYTE, Download(m), Zeros(Roundup4(|Download(m)|) - |Download(m)|))))
    ensures skb != null && ret != 0 ==> skb.Bytes() == Body(W, m)
  {
    hide Framed, Body, Parse, Download;
    skb := MgmtBuild(W, m, pad);
    if skb == null { return -ENOMEM, null; }
    MessageRoundTrip(W, MGMT_TX_SEND_CMDID, m);
    var tried;
    ret, tried := CmdSend(W, skb, MGMT_TX_SEND_CMDID, attempts);
  }
}
