/** Ring identifiers, the shared pointer cells and the device registers of all rings: which id
    a ring gets, and why no ring's setup or pointer exchange can touch another ring. */
module RingTable {
  import opened Common
  import opened Bits
  import opened Descriptors

  const UMAC_ID_END: nat := 127
  const LMAC1_ID_START: nat := 128
  const RINGS_PER_LMAC: nat := 15            // LMAC1_ID_END - LMAC1_ID_START
  const NUM_LMACS: nat := 3
  const NUM_LMAC_RINGS: nat := 45
  const RING_ID_MAX: nat := 172              // UMAC_ID_END + NUM_LMAC_RINGS
  const REG_BASE: nat := 0x10000
  const WBM_IDLE_LINK: nat := 104

  /** One row of the ring configuration table. */
  datatype Config = Config(start: nat, maxRings: nat, entryWords: nat, lmac: bool, dst: bool)

  /** hw_srng_config_template: test source, test destination, destination status. */
  const TEMPLATE: seq<Config> := [
    Config(125, 1, 5, false, false),
    Config(8, 1, 3, false, false),
    Config(1, 1, 2, false, true)]

  // ---- ring ids ---------------------------------------------------------------------

  /** hal_srng_get_ring_id; None stands for -EINVAL. */
  function GetRingId(c: Config, ringNum: int, macId: int): Option<int> {
    if ringNum >= c.maxRings then None
    else
      var id := c.start + ringNum + (if c.lmac then macId * RINGS_PER_LMAC else 0);
      if id >= RING_ID_MAX then None else Some(id)
  }

  predicate Within(c: Config) {
    if c.lmac then LMAC1_ID_START <= c.start && c.start + c.maxRings <= LMAC1_ID_START + RINGS_PER_LMAC
    else c.start + c.maxRings <= LMAC1_ID_START
  }

  predicate Apart(c: Config, d: Config) {
    c.lmac != d.lmac || c.start + c.maxRings <= d.start || d.start + d.maxRings <= c.start
  }

  /** Each row stays inside its id space and no two rows overlap. */
  ghost predicate WellFormed(table: seq<Config>) {
    && (forall i :: 0 <= i < |table| ==> Within(table[i]))
    && (forall i, j :: 0 <= i < j < |table| ==> Apart(table[i], table[j]))
  }

  lemma TemplateWellFormed()
    ensures WellFormed(TEMPLATE)
  {
  }

  /** A ring of a well-formed row is refused exactly when it is the last id of the third LMAC:
      the id limit is one short of the LMAC id space. */
  lemma AcceptedIff(c: Config, num: nat, mac: nat)
    requires Within(c) && num < c.maxRings && mac < NUM_LMACS
    ensures GetRingId(c, num, mac).Some? <==>
              !(c.lmac && mac == NUM_LMACS - 1 && c.start + num == LMAC1_ID_START + RINGS_PER_LMAC - 1)
    ensures GetRingId(c, num, mac).Some? ==>
              var id := GetRingId(c, num, mac).value;
              && 0 <= id < RING_ID_MAX && id < 256
              && (c.lmac <==> id >= LMAC1_ID_START)
              && (c.lmac ==> id - LMAC1_ID_START < NUM_LMAC_RINGS)
  {
  }

  /** Ids count up from the row's first: the first ring has it, the next ring the next id, and an LMAC
      row's rings lie fifteen further in the next LMAC; other rows ignore the LMAC. */
  lemma IdsCountUp(c: Config, num: nat, mac: nat)
    requires num < c.maxRings
    ensures c.start < RING_ID_MAX ==> GetRingId(c, 0, 0) == Some(c.start)
    ensures num + 1 < c.maxRings && GetRingId(c, num + 1, mac).Some? ==>
              GetRingId(c, num, mac) == Some(GetRingId(c, num + 1, mac).value - 1)
    ensures c.lmac && GetRingId(c, num, mac + 1).Some? ==>
              GetRingId(c, num, mac) == Some(GetRingId(c, num, mac + 1).value - 15)
    ensures !c.lmac ==> GetRingId(c, num, mac) == GetRingId(c, num, 0)
    ensures GetRingId(c, c.maxRings, mac).None?
  {
  }

  /** The ids of the driver's three rings. */
  lemma TemplateIds(mac: nat)
    ensures GetRingId(TEMPLATE[0], 0, mac) == Some(125)
    ensures GetRingId(TEMPLATE[1], 0, mac) == Some(8)
    ensures GetRingId(TEMPLATE[2], 0, mac) == Some(1)
  {
  }

  /** The refused ring of an LMAC row that ends with its id space. */
  lemma LastLmacRefused()
    ensures Within(Config(142, 1, 1, true, false))
    ensures GetRingId(Config(142, 1, 1, true, false), 0, NUM_LMACS - 1).None?
  {
  }

  /** Distinct rings of a well-formed table never share an id. */
  lemma UniqueIds(table: seq<Config>, t: nat, num: nat, mac: nat, t': nat, num': nat, mac': nat)
    requires WellFormed(table) && t < |table| && t' < |table|
    requires num < table[t].maxRings && num' < table[t'].maxRings && mac < NUM_LMACS && mac' < NUM_LMACS
    requires GetRingId(table[t], num, mac).Some?
    requires GetRingId(table[t], num, mac) == GetRingId(table[t'], num', mac')
    ensures t == t' && num == num' && (table[t].lmac ==> mac == mac')
  {
    assert Within(table[t]) && Within(table[t']);
    AcceptedIff(table[t], num, mac);
    AcceptedIff(table[t'], num', mac');
  }

  // ---- device registers -------------------------------------------------------------

  /** hwreg_base[grp]: HAL_SRNG_REG_BASE | (ring_id << 8) | (grp << 7). */
  function RegBase(id: nat, grp: nat): nat {
    Or(Or(REG_BASE, Shl(id, 8)), Shl(grp, 7))
  }

  function Reg(id: nat, grp: nat, reg: nat): nat {
    RegBase(id, grp) + 4 * reg
  }

  lemma {:induction false} OrAdd(y: nat, x: nat, k: nat)
    requires x < Pow2(k)
    ensures Or(Shl(y, k), x) == Shl(y, k) + x
    decreases k
  {
    if k == 0 {
      OrZero(y);
    } else {
      OrStep(Shl(y, k), x);
      OrAdd(y, x / 2, k - 1);
    }
  }

  lemma {:induction false} ShlAdd(x: nat, a: nat, b: nat)
    ensures Shl(Shl(x, a), b) == Shl(x, a + b)
    decreases b
  {
    if b > 0 { ShlAdd(x, a, b - 1); }
  }

  lemma ShlValues(x: nat)
    ensures Shl(x, 8) == 256 * x && Shl(x, 7) == 128 * x && Shl(x, 16) == 65536 * x
    ensures Pow2(8) == 256 && Pow2(16) == 65536
  {
    ShlFour(x);
    assert Shl(x, 5) == 2 * Shl(x, 4) && Shl(x, 6) == 2 * Shl(x, 5) && Shl(x, 7) == 2 * Shl(x, 6);
    assert Shl(x, 8) == 2 * Shl(x, 7);
    var y := Shl(x, 8);
    ShlAdd(x, 8, 8);
    ShlFour(y);
    assert Shl(y, 5) == 2 * Shl(y, 4) && Shl(y, 6) == 2 * Shl(y, 5) && Shl(y, 7) == 2 * Shl(y, 6);
    assert Shl(y, 8) == 2 * Shl(y, 7);
    assert Pow2(4) == 16 && Pow2(8) == 256 && Pow2(12) == 4096;
  }

  lemma ShlFour(x: nat)
    ensures Shl(x, 4) == 16 * x
  {
    assert Shl(x, 1) == 2 * Shl(x, 0) && Shl(x, 2) == 2 * Shl(x, 1) && Shl(x, 3) == 2 * Shl(x, 2);
  }

  /** The three fields of a register address do not overlap. */
  lemma RegBaseValue(id: nat, grp: nat)
    requires id < 256 && grp < 2
    ensures RegBase(id, grp) == REG_BASE + 256 * id + 128 * grp
  {
    ShlValues(1);
    ShlValues(id);
    ShlValues(grp);
    ShlValues(256 + id);
    OrAdd(1, Shl(id, 8), 16);
    OrAdd(256 + id, Shl(grp, 7), 8);
  }

  /** Which window a register lies in, and where in it. */
  lemma RegParts(id: nat, grp: nat, reg: nat)
    requires id < 256 && grp < 2 && reg < 32
    ensures Reg(id, grp, reg) / 256 == 256 + id
    ensures Reg(id, grp, reg) % 256 == 128 * grp + 4 * reg
  {
    RegBaseValue(id, grp);
    var a := Reg(id, grp, reg);
    assert a == (256 + id) * 256 + (128 * grp + 4 * reg);
    ModIs(a, 256, 256 + id, 128 * grp + 4 * reg);
  }

  /** Distinct (ring, group, register) triples have distinct addresses, and every register of a
      ring lies in that ring's own 256-byte window. */
  lemma RegistersApart(id: nat, grp: nat, reg: nat, id': nat, grp': nat, reg': nat)
    requires id < 256 && id' < 256 && grp < 2 && grp' < 2 && reg < 32 && reg' < 32
    ensures Reg(id, grp, reg) == Reg(id', grp', reg') <==> id == id' && grp == grp' && reg == reg'
    ensures Window(Reg(id, grp, reg)) == id
  {
    hide Reg;
    RegParts(id, grp, reg);
    RegParts(id', grp', reg');
    if Reg(id, grp, reg) == Reg(id', grp', reg') {
      OffsetParts(grp, reg, grp', reg');
    }
  }

  lemma OffsetParts(grp: nat, reg: nat, grp': nat, reg': nat)
    requires grp < 2 && grp' < 2 && reg < 32 && reg' < 32
    requires 128 * grp + 4 * reg == 128 * grp' + 4 * reg'
    ensures grp == grp' && reg == reg'
  {
  }

  /** The ring whose register window contains an address. */
  function Window(addr: nat): int {
    addr / 256 - 256
  }

  // ---- register writes --------------------------------------------------------------

  /** The registers that belong to one ring. */
  function RegsOf(regs: map<nat, nat>, id: nat): map<nat, nat> {
    map a | a in regs && Window(a) == id :: regs[a]
  }

  /** Register writes as (group, register, value). */
  datatype Write = Write(grp: nat, reg: nat, val: nat)

  function WriteAll(regs: map<nat, nat>, id: nat, ws: seq<Write>): map<nat, nat>
    decreases |ws|
  {
    if ws == [] then regs else WriteAll(regs[Reg(id, ws[0].grp, ws[0].reg) := ws[0].val], id, ws[1..])
  }

  ghost predicate InRange(ws: seq<Write>) {
    forall i :: 0 <= i < |ws| ==> ws[i].grp < 2 && ws[i].reg < 32
  }

  /** No register is written twice. */
  ghost predicate Distinct(ws: seq<Write>) {
    forall i, j :: 0 <= i < j < |ws| ==> ws[i].grp != ws[j].grp || ws[i].reg != ws[j].reg
  }

  lemma {:induction false} WriteAllKeeps(regs: map<nat, nat>, id: nat, ws: seq<Write>, grp: nat, reg: nat)
    requires id < 256 && grp < 2 && reg < 32 && InRange(ws) && Reg(id, grp, reg) in regs
    requires forall i :: 0 <= i < |ws| ==> ws[i].grp != grp || ws[i].reg != reg
    ensures Reg(id, grp, reg) in WriteAll(regs, id, ws)
    ensures WriteAll(regs, id, ws)[Reg(id, grp, reg)] == regs[Reg(id, grp, reg)]
    decreases |ws|
  {
    if ws != [] {
      RegistersApart(id, grp, reg, id, ws[0].grp, ws[0].reg);
      WriteAllKeeps(regs[Reg(id, ws[0].grp, ws[0].reg) := ws[0].val], id, ws[1..], grp, reg);
    }
  }

  /** Every register of the list ends up with the value written to it. */
  lemma {:induction false} WriteAllReads(regs: map<nat, nat>, id: nat, ws: seq<Write>, k: nat)
    requires id < 256 && InRange(ws) && Distinct(ws) && k < |ws|
    ensures var a := Reg(id, ws[k].grp, ws[k].reg);
            && Window(a) == id
            && a in WriteAll(regs, id, ws) && WriteAll(regs, id, ws)[a] == ws[k].val
    decreases |ws|
  {
    RegistersApart(id, ws[k].grp, ws[k].reg, id, 0, 0);
    var next := regs[Reg(id, ws[0].grp, ws[0].reg) := ws[0].val];
    if k == 0 {
      WriteAllKeeps(next, id, ws[1..], ws[0].grp, ws[0].reg);
    } else {
      WriteAllReads(next, id, ws[1..], k - 1);
    }
  }

  /** Writing a ring's registers leaves every other ring's window unchanged. */
  lemma {:induction false} WriteAllApart(regs: map<nat, nat>, id: nat, ws: seq<Write>, other: nat)
    requires id < 256 && other < 256 && id != other && InRange(ws)
    ensures RegsOf(WriteAll(regs, id, ws), other) == RegsOf(regs, other)
    decreases |ws|
  {
    if ws != [] {
      var w := ws[0];
      RegistersApart(id, w.grp, w.reg, id, w.grp, w.reg);
      var next := regs[Reg(id, w.grp, w.reg) := w.val];
      assert RegsOf(next, other) == RegsOf(regs, other);
      WriteAllApart(next, id, ws[1..], other);
    }
  }

  predicate Holds(regs: map<nat, nat>, id: nat, w: Write) {
    Reg(id, w.grp, w.reg) in regs && regs[Reg(id, w.grp, w.reg)] == w.val
  }

  /** The words hw_init composes from interrupt parameters and flags, taken as they are. */
  datatype Opts = Opts(thresholds: nat, low: nat, misc: nat)

  /** hal_srng_src_hw_init / hal_srng_dst_hw_init in program order: base, size, id, thresholds,
      the bus address of the ring's rdp cell, cleared pointers, control bits. The idle-link ring is
      not told the cell's address; its repeated writes of the first three registers are left out. */
  function InitWrites(L: Layout, c: Config, base: nat, entries: nat, id: nat, rdpBus: nat, o: Opts): (ws: seq<Write>)
    requires ValidLayout(L)
    ensures InRange(ws) && Distinct(ws)
  {
    var cell := rdpBus + 4 * id;
    [Write(0, 0, AddrLow(L, base)),
     Write(0, 1, BaseMsbReg(L, base, c.entryWords * entries)),
     Write(0, 2, if c.dst then RingIdReg(L, id, c.entryWords) else FieldPrep(L.entrySize, c.entryWords)),
     Write(0, 3, o.thresholds)]
    + (if c.dst then [] else [Write(0, 4, o.low)])
    + (if !c.dst && id == WBM_IDLE_LINK then []
       else [Write(0, 5, AddrLow(L, cell)), Write(0, 6, AddrHigh(L, cell))])
    + [Write(1, 0, 0), Write(1, 1, 0), Write(0, 7, o.misc)]
  }
}
