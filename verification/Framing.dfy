/** Management frames on their way to the firmware: a WMI command built in a buffer with
    reserved headroom, wrapped by a WMI and an HTC header, sent with retries. Buffers are bytes;
    header words are stored little-endian, as on the CPUs the driver targets. */
module Framing {
  import opened Bits
  import opened Common
  import opened Descriptors

  // ---- words in memory --------------------------------------------------------------

  /** The k low bytes of v, least significant first, and back. */
  function Le(v: nat, k: nat): (b: seq<nat>)
    ensures |b| == k
  {
    if k == 0 then [] else [v % 256] + Le(v / 256, k - 1)
  }

  /** The little-endian number in the k bytes of b from off. */
  function LeAt(b: seq<nat>, off: nat, k: nat): nat
    requires off + k <= |b|
    decreases k
  {
    if k == 0 then 0 else b[off] + 256 * LeAt(b, off + 1, k - 1)
  }

  function Limit(k: nat): nat {
    if k == 0 then 1 else 256 * Limit(k - 1)
  }

  /** Storing v and reading it back, wherever it lies, for every v that fits. */
  lemma {:induction false} LeRoundTrip(b: seq<nat>, off: nat, v: nat, k: nat)
    requires off + k <= |b| && v < Limit(k)
    requires forall j :: 0 <= j < k ==> b[off + j] == Le(v, k)[j]
    ensures LeAt(b, off, k) == v
    decreases k
  {
    if k > 0 {
      var rest := Le(v / 256, k - 1);
      forall j | 0 <= j < k - 1
        ensures b[off + 1 + j] == rest[j]
      {
        assert b[off + (j + 1)] == Le(v, k)[j + 1];
      }
      assert b[off + 0] == Le(v, k)[0];
      LeRoundTrip(b, off + 1, v / 256, k - 1);
    }
  }

  function Le32(v: nat): (b: seq<nat>)
    ensures |b| == 4
  {
    Le(v, 4)
  }

  /** Consecutive words in memory. */
  function Words(ws: seq<nat>): (b: seq<nat>)
    ensures |b| == 4 * |ws|
  {
    if ws == [] then [] else Words(ws[..|ws| - 1]) + Le32(ws[|ws| - 1])
  }

  function WordAt(b: seq<nat>, off: nat): nat
    requires off + 4 <= |b|
  {
    LeAt(b, off, 4)
  }

  lemma {:induction false} WordsAt(ws: seq<nat>, i: nat, j: nat)
    requires i < |ws| && j < 4
    ensures Words(ws)[4 * i + j] == Le32(ws[i])[j]
    decreases |ws|
  {
    var t := ws[..|ws| - 1];
    if i < |t| { WordsAt(t, i, j); }
  }

  /** Reading word i of a block of words. */
  lemma ReadWord(ws: seq<nat>, rest: seq<nat>, i: nat)
    requires i < |ws| && ws[i] < TWO32
    ensures WordAt(Words(ws) + rest, 4 * i) == ws[i]
  {
    var b := Words(ws) + rest;
    forall j | 0 <= j < 4
      ensures b[4 * i + j] == Le(ws[i], 4)[j]
    {
      WordsAt(ws, i, j);
    }
    assert Limit(2) == 65536 && Limit(4) == TWO32;
    LeRoundTrip(b, 4 * i, ws[i], 4);
  }

  // ---- header words -----------------------------------------------------------------

  /** Field positions of the HTC, WMI and TLV header words. */
  datatype Wire = Wire(endpoint: Field, payload: Field, cmd: Field, tag: Field, tlvLen: Field)

  const WIRE := Wire(Field(7, 0), Field(31, 16), Field(23, 0), Field(31, 16), Field(15, 0))

  predicate Fits32(f: Field) { ValidField(f) && f.hi < 32 }

  ghost predicate ValidWire(W: Wire) {
    && Fits32(W.endpoint) && Fits32(W.payload) && Fits32(W.cmd) && Fits32(W.tag) && Fits32(W.tlvLen)
    && Disjoint(W.endpoint, W.payload) && Disjoint(W.tag, W.tlvLen)
    && Width(W.payload) == 16 && Width(W.tag) == 16 && Width(W.tlvLen) == 16 && Width(W.cmd) == 24
  }

  /** The driver's masks fit 32 bits and do not overlap; the payload and length fields have 16
      bits, command ids 24. */
  lemma WireIsValid()
    ensures ValidWire(WIRE)
  {
  }

  const HTC_HDR: nat := 8
  const WMI_HDR: nat := 4
  const TLV_HDR: nat := 4
  const CMD_SIZE: nat := 36                    // sizeof(struct wmi_mgmt_send_cmd)
  const DOWNLOAD_LEN: nat := 64                // WMI_MGMT_SEND_DOWNLD_LEN
  const TAG_MGMT_TX_SEND: nat := 422
  const TAG_ARRAY_BYTE: nat := 17
  const MGMT_TX_SEND_CMDID: nat := 0x7008

  function HtcInfo(W: Wire, payload: nat): nat
    requires ValidField(W.endpoint) && ValidField(W.payload)
  {
    Or(FieldPrep(W.endpoint, 0), FieldPrep(W.payload, payload))
  }

  function WmiWord(W: Wire, cmdId: nat): nat
    requires ValidField(W.cmd)
  {
    Or(0, FieldPrep(W.cmd, cmdId))
  }

  function TlvWord(W: Wire, tag: nat, len: nat): nat
    requires ValidField(W.tag) && ValidField(W.tlvLen)
  {
    Or(FieldPrep(W.tag, tag), FieldPrep(W.tlvLen, len))
  }

  lemma {:induction false} OrBound(a: nat, b: nat, k: nat)
    requires a < Pow2(k) && b < Pow2(k)
    ensures Or(a, b) < Pow2(k)
    decreases k
  {
    if k > 0 {
      OrStep(a, b);
      OrBound(a / 2, b / 2, k - 1);
    }
  }

  lemma PrepBound(f: Field, v: nat, k: nat)
    requires ValidField(f) && f.hi < k
    ensures FieldPrep(f, v) < Pow2(k)
  {
    FieldPrepValue(f, v);
    LowSmall(v, Width(f));
    ShlSmall(Low(v, Width(f)), f.lo, Width(f));
    Pow2Grows(f.hi + 1, k);
  }

  lemma Pow2Doubles(k: nat, v: nat)
    requires Pow2(k) == v
    ensures Pow2(k + 4) == 16 * v
  {
    assert Pow2(k + 4) == 2 * Pow2(k + 3) && Pow2(k + 3) == 2 * Pow2(k + 2) && Pow2(k + 2) == 2 * Pow2(k + 1);
  }

  lemma Pow2Words()
    ensures Pow2(16) == 0x1_0000 && Pow2(24) == 0x100_0000 && Pow2(32) == TWO32
  {
    Pow2Doubles(0, 1);
    Pow2Doubles(4, 0x10);
    Pow2Doubles(8, 0x100);
    Pow2Doubles(12, 0x1000);
    Pow2Doubles(16, 0x1_0000);
    Pow2Doubles(20, 0x10_0000);
    Pow2Doubles(24, 0x100_0000);
    Pow2Doubles(28, 0x1000_0000);
  }

  /** A two-field header word is a u32 whose fields read back whole when they fit 16 bits. */
  lemma TwoFieldWord(f: Field, g: Field, x: nat, y: nat)
    requires Fits32(f) && Fits32(g) && Disjoint(f, g)
    ensures var w := Or(FieldPrep(f, x), FieldPrep(g, y));
            && w < TWO32
            && (FieldGet(f, w) == x <==> x < Pow2(Width(f)))
            && (FieldGet(g, w) == y <==> y < Pow2(Width(g)))
  {
    TwoFields(f, g, x, y);
    PrepBound(f, x, 32);
    PrepBound(g, y, 32);
    OrBound(FieldPrep(f, x), FieldPrep(g, y), 32);
    Pow2Words();
  }

  /** The command word is a u32 that carries any 24-bit command id. */
  lemma CommandWord(W: Wire, cmdId: nat)
    requires ValidWire(W)
    ensures WmiWord(W, cmdId) < TWO32
    ensures FieldGet(W.cmd, WmiWord(W, cmdId)) == cmdId <==> cmdId < 0x100_0000
  {
    OrZero(FieldPrep(W.cmd, cmdId));
    PrepBound(W.cmd, cmdId, 32);
    FieldGetOwn(W.cmd, cmdId);
    LowSmall(cmdId, Width(W.cmd));
    Pow2Words();
  }

  // ---- the message ------------------------------------------------------------------

  function Min(a: nat, b: nat): nat { if a < b then a else b }

  function Roundup4(x: nat): (r: nat)
    ensures x <= r < x + 4 && r % 4 == 0
  {
    (x + 3) / 4 * 4
  }

  function Zeros(k: nat): (z: seq<nat>)
    ensures |z| == k && forall i :: 0 <= i < k ==> z[i] == 0
  {
    seq(k, _ => 0)
  }

  /** What wireless_simu_wmi_mgmt_send is asked to send. */
  datatype Mgmt = Mgmt(vif: nat, bufId: nat, paddr: nat, frame: seq<nat>)

  ghost predicate ValidMgmt(m: Mgmt) {
    m.vif < TWO32 && m.bufId < TWO32 && m.paddr < TWO32 * TWO32 && |m.frame| < TWO32
  }

  function Download(m: Mgmt): (d: seq<nat>)
    ensures d <= m.frame && |d| <= 64 && (|d| < 64 ==> d == m.frame)
  {
    m.frame[..Min(|m.frame|, DOWNLOAD_LEN)]
  }

  /** lower_32_bits and upper_32_bits of a bus address. */
  function Lower(paddr: nat): nat { paddr % TWO32 }

  function Upper(paddr: nat): nat { paddr / TWO32 }

  /** The words of wmi_mgmt_send_cmd, which starts with TLV header t0, followed by the TLV header
      t1 of the byte array. */
  function Command(t0: nat, m: Mgmt, t1: nat): (ws: seq<nat>)
    ensures |ws| == 10
  {
    [t0, m.vif, m.bufId, 0, Lower(m.paddr), Upper(m.paddr), |m.frame|, |Download(m)|, 0, t1]
  }

  function CommandWords(W: Wire, m: Mgmt): (ws: seq<nat>)
    requires ValidField(W.tag) && ValidField(W.tlvLen)
    ensures |ws| == 10
  {
    Command(TlvWord(W, TAG_MGMT_TX_SEND, CMD_SIZE - TLV_HDR), m, TlvWord(W, TAG_ARRAY_BYTE, |Download(m)|))
  }

  /** The command as it lies in the buffer before any header is pushed. */
  function Body(W: Wire, m: Mgmt): (b: seq<nat>)
    requires ValidField(W.tag) && ValidField(W.tlvLen)
    ensures |b| == CMD_SIZE + TLV_HDR + Roundup4(|Download(m)|)
  {
    var d := Download(m);
    Words(CommandWords(W, m)) + (d + Zeros(Roundup4(|d|) - |d|))
  }

  /** Both headers in front of a command. */
  function Framed(W: Wire, cmdId: nat, body: seq<nat>): (b: seq<nat>)
    requires ValidField(W.endpoint) && ValidField(W.payload) && ValidField(W.cmd)
    ensures |b| == HTC_HDR + WMI_HDR + |body|
  {
    Words([HtcInfo(W, WMI_HDR + |body|), 0, WmiWord(W, cmdId)]) + body
  }

  // ---- the firmware's view ----------------------------------------------------------

  /** What a reader recovers: the fixed part of the command, and the byte array behind it. */
  datatype Fixed = Fixed(vif: nat, bufId: nat, paddr: nat, frameLen: nat, bufLen: nat)

  datatype ByteArray = ByteArray(tag: nat, data: seq<nat>, padding: seq<nat>)

  datatype Parsed = Parsed(cmdId: nat, tag: nat, fixed: Fixed, payload: ByteArray)

  function FixedAt(b: seq<nat>, cmd: nat): Fixed
    requires cmd + CMD_SIZE <= |b|
  {
    Fixed(WordAt(b, cmd + 4), WordAt(b, cmd + 8), WordAt(b, cmd + 16) + TWO32 * WordAt(b, cmd + 20),
          WordAt(b, cmd + 24), WordAt(b, cmd + 28))
  }

  function ArrayAt(W: Wire, b: seq<nat>, off: nat): Option<ByteArray>
    requires ValidField(W.tag) && ValidField(W.tlvLen)
    requires off + TLV_HDR <= |b|
  {
    var t, first := WordAt(b, off), off + TLV_HDR;
    var last := first + FieldGet(W.tlvLen, t);
    if last > |b| then None else Some(ByteArray(FieldGet(W.tag, t), b[first..last], b[last..]))
  }

  /** Walks HTC header, WMI header, command TLV and byte-array TLV, finding each by the length
      in the one before; None when a length does not fit. */
  function Parse(W: Wire, b: seq<nat>): Option<Parsed>
    requires ValidField(W.endpoint) && ValidField(W.payload) && ValidField(W.cmd) && ValidField(W.tag) && ValidField(W.tlvLen)
  {
    var cmd := HTC_HDR + WMI_HDR;
    if |b| < cmd + TLV_HDR || FieldGet(W.payload, WordAt(b, 0)) != |b| - HTC_HDR then None
    else
      var h := WordAt(b, cmd);
      var second := cmd + TLV_HDR + FieldGet(W.tlvLen, h);
      if second < cmd + CMD_SIZE || second + TLV_HDR > |b| then None
      else match ArrayAt(W, b, second)
        case None => None
        case Some(a) => Some(Parsed(FieldGet(W.cmd, WordAt(b, HTC_HDR)), FieldGet(W.tag, h), FixedAt(b, cmd), a))
  }

  lemma AddressHalves(paddr: nat)
    requires paddr < TWO32 * TWO32
    ensures Lower(paddr) < TWO32 && Upper(paddr) < TWO32
    ensures Lower(paddr) + TWO32 * Upper(paddr) == paddr
  {
  }

  lemma {:induction false} WordsConcat(a: seq<nat>, b: seq<nat>)
    ensures Words(a + b) == Words(a) + Words(b)
    decreases |b|
  {
    if b == [] {
      assert a + b == a;
    } else {
      assert (a + b)[..|a + b| - 1] == a + b[..|b| - 1];
      WordsConcat(a, b[..|b| - 1]);
    }
  }

  ghost predicate Small(ws: seq<nat>) {
    forall i :: 0 <= i < |ws| ==> ws[i] < TWO32
  }

  /** The fixed part as thirteen header and command words hold it, and as m has it. */
  function FixedIn(ws: seq<nat>): Fixed
    requires |ws| == 13
  {
    Fixed(ws[4], ws[5], ws[7] + TWO32 * ws[8], ws[9], ws[10])
  }

  function FixedOf(m: Mgmt): Fixed {
    Fixed(m.vif, m.bufId, m.paddr, |m.frame|, |Download(m)|)
  }

  lemma FixedWords(ws: seq<nat>, rest: seq<nat>)
    requires |ws| == 13 && Small(ws)
    ensures FixedAt(Words(ws) + rest, 12) == FixedIn(ws)
  {
    ReadWord(ws, rest, 4);
    ReadWord(ws, rest, 5);
    ReadWord(ws, rest, 7);
    ReadWord(ws, rest, 8);
    ReadWord(ws, rest, 9);
    ReadWord(ws, rest, 10);
  }

  lemma Slices(w: seq<nat>, d: seq<nat>, z: seq<nat>)
    ensures var b := w + (d + z); b[|w|..|w| + |d|] == d && b[|w| + |d|..] == z
  {
  }

  lemma ArrayWords(W: Wire, ws: seq<nat>, d: seq<nat>, z: seq<nat>)
    requires ValidWire(W) && |ws| == 13 && Small(ws)
    requires FieldGet(W.tlvLen, ws[12]) == |d|
    ensures ArrayAt(W, Words(ws) + (d + z), 48) == Some(ByteArray(FieldGet(W.tag, ws[12]), d, z))
  {
    ReadWord(ws, d + z, 12);
    Slices(Words(ws), d, z);
  }

  /** The parser on thirteen words followed by data, given what their length fields say. */
  lemma ParseWords(W: Wire, ws: seq<nat>, d: seq<nat>, z: seq<nat>)
    requires ValidWire(W) && |ws| == 13 && Small(ws)
    requires FieldGet(W.payload, ws[0]) == 44 + |d| + |z|
    requires FieldGet(W.tlvLen, ws[3]) == CMD_SIZE - TLV_HDR && FieldGet(W.tlvLen, ws[12]) == |d|
    ensures Parse(W, Words(ws) + (d + z)) ==
              Some(Parsed(FieldGet(W.cmd, ws[2]), FieldGet(W.tag, ws[3]), FixedIn(ws),
                          ByteArray(FieldGet(W.tag, ws[12]), d, z)))
  {
    ReadWord(ws, d + z, 0);
    ReadWord(ws, d + z, 2);
    ReadWord(ws, d + z, 3);
    FixedWords(ws, d + z);
    ArrayWords(W, ws, d, z);
  }

  lemma CommandLayout(h0: nat, h2: nat, t0: nat, m: Mgmt, t1: nat)
    requires h0 < TWO32 && h2 < TWO32 && t0 < TWO32 && t1 < TWO32 && ValidMgmt(m)
    ensures var ws := [h0, 0, h2] + Command(t0, m, t1);
            Small(ws) && FixedIn(ws) == FixedOf(m) && ws[0] == h0 && ws[2] == h2 && ws[3] == t0 && ws[12] == t1
  {
    AddressHalves(m.paddr);
  }

  lemma JoinWords(x: seq<nat>, y: seq<nat>, rest: seq<nat>)
    ensures Words(x) + (Words(y) + rest) == Words(x + y) + rest
  {
    WordsConcat(x, y);
  }

  /** For every frame and every 24-bit command id, walking the nested headers recovers the ids,
      the address, the full frame length, the downloaded prefix and less than a word of zero
      padding, and the HTC payload length is the sum of what it encloses. */
  lemma MessageRoundTrip(W: Wire, cmdId: nat, m: Mgmt)
    requires ValidWire(W) && ValidMgmt(m) && cmdId < 0x100_0000
    ensures var d := Download(m);
            Parse(W, Framed(W, cmdId, Body(W, m))) ==
              Some(Parsed(cmdId, TAG_MGMT_TX_SEND, Fixed(m.vif, m.bufId, m.paddr, |m.frame|, |d|),
                          ByteArray(TAG_ARRAY_BYTE, d, Zeros(Roundup4(|d|) - |d|))))
    ensures FieldGet(W.payload, HtcInfo(W, WMI_HDR + |Body(W, m)|))
              == WMI_HDR + CMD_SIZE + TLV_HDR + Roundup4(|Download(m)|)
  {
    var d := Download(m);
    var z := Zeros(Roundup4(|d|) - |d|);
    var h0, h2 := HtcInfo(W, WMI_HDR + |Body(W, m)|), WmiWord(W, cmdId);
    var t0, t1 := TlvWord(W, TAG_MGMT_TX_SEND, CMD_SIZE - TLV_HDR), TlvWord(W, TAG_ARRAY_BYTE, |d|);
    HeaderFields(W, cmdId, m);
    CommandLayout(h0, h2, t0, m, t1);
    ParseWords(W, [h0, 0, h2] + Command(t0, m, t1), d, z);
    JoinWords([h0, 0, h2], CommandWords(W, m), d + z);
  }

  /** The words no reader looks at are zero: channel frequency, transmit-parameter flag, HTC control
      word and endpoint. */
  lemma UnreadWordsZero(W: Wire, cmdId: nat, m: Mgmt)
    requires ValidWire(W) && ValidMgmt(m) && cmdId < 0x100_0000
    ensures var b := Framed(W, cmdId, Body(W, m));
            && |b| >= 52 && WordAt(b, 12 + 12) == 0 && WordAt(b, 12 + 32) == 0 && WordAt(b, 4) == 0
            && FieldGet(W.endpoint, WordAt(b, 0)) == 0
  {
    hide WordAt, Words, HtcInfo, WmiWord, TlvWord, FieldGet;
    var d := Download(m);
    var z := Zeros(Roundup4(|d|) - |d|);
    var hs, ws := [HtcInfo(W, WMI_HDR + |Body(W, m)|), 0, WmiWord(W, cmdId)], CommandWords(W, m);
    EndpointZero(W, WMI_HDR + |Body(W, m)|);
    JoinWords(hs, ws, d + z);
    ZeroWords(hs, ws, d + z);
  }

  lemma EndpointZero(W: Wire, payload: nat)
    requires ValidWire(W)
    ensures HtcInfo(W, payload) < TWO32 && FieldGet(W.endpoint, HtcInfo(W, payload)) == 0
  {
    TwoFieldWord(W.endpoint, W.payload, 0, payload);
  }

  lemma ZeroWords(hs: seq<nat>, ws: seq<nat>, rest: seq<nat>)
    requires |hs| == 3 && hs[0] < TWO32 && hs[1] == 0
    requires |ws| == 10 && ws[3] == 0 && ws[8] == 0
    ensures var b := Words(hs + ws) + rest;
            WordAt(b, 0) == hs[0] && WordAt(b, 4) == 0 && WordAt(b, 24) == 0 && WordAt(b, 44) == 0
  {
    ReadWord(hs + ws, rest, 0);
    ReadWord(hs + ws, rest, 1);
    ReadWord(hs + ws, rest, 6);
    ReadWord(hs + ws, rest, 11);
  }

  /** The header words of a framed command are u32, and their fields read back whole. */
  lemma HeaderFields(W: Wire, cmdId: nat, m: Mgmt)
    requires ValidWire(W) && ValidMgmt(m) && cmdId < 0x100_0000
    ensures var w := HtcInfo(W, WMI_HDR + |Body(W, m)|);
            w < TWO32 && FieldGet(W.payload, w) == WMI_HDR + |Body(W, m)|
    ensures WmiWord(W, cmdId) < TWO32 && FieldGet(W.cmd, WmiWord(W, cmdId)) == cmdId
    ensures var w := TlvWord(W, TAG_MGMT_TX_SEND, CMD_SIZE - TLV_HDR);
            w < TWO32 && FieldGet(W.tag, w) == TAG_MGMT_TX_SEND && FieldGet(W.tlvLen, w) == CMD_SIZE - TLV_HDR
    ensures var w := TlvWord(W, TAG_ARRAY_BYTE, |Download(m)|);
            w < TWO32 && FieldGet(W.tag, w) == TAG_ARRAY_BYTE && FieldGet(W.tlvLen, w) == |Download(m)|
  {
    Pow2Words();
    CommandWord(W, cmdId);
    TwoFieldWord(W.endpoint, W.payload, 0, WMI_HDR + |Body(W, m)|);
    TwoFieldWord(W.tag, W.tlvLen, TAG_MGMT_TX_SEND, CMD_SIZE - TLV_HDR);
    TwoFieldWord(W.tag, W.tlvLen, TAG_ARRAY_BYTE, |Download(m)|);
  }
}
