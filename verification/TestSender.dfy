/** The transmit side: wireless_simu_hal_srng_test_send posts a buffer descriptor on a source
    ring and records the buffer in a side array indexed by a power-of-two mask. */
module TestSender {
  import opened Common
  import opened Bits
  import opened RingMath
  import opened Descriptors
  import S = SourceRing

  const SRC_WORDS: nat := 5   // sizeof(struct hal_test_sw2hw) >> 2

  datatype Frame = Frame(paddr: nat, len: nat)

  lemma HeadAt(y: S.Sys)
    requires S.Inv(y)
    ensures y.r.hp == y.r.e * (y.h.granted % y.r.n)
  {
  }

  class SrcPipe {
    const fmt: Layout
    const n: nat
    const ring: S.SrcRing
    const skb: array<Option<Frame>>
    const schedule: nat -> nat     // how many entries the device consumes in each gap
    var gap: nat
    var writeIndex: nat

    /** Between sends nothing is half posted, and head pointer and write index agree. */
    ghost predicate Valid()
      reads this, ring, ring.mem, skb
    {
      && ring.Valid() && ring.n == n && ring.e == SRC_WORDS && IsPow2(n) && skb.Length == n
      && ValidLayout(fmt)
      && ring.h.published == ring.h.granted
      && writeIndex == ring.h.granted % n
    }

    constructor (fmt: Layout, entries: nat, schedule: nat -> nat)
      requires ValidLayout(fmt) && S.ValidShape(entries, SRC_WORDS) && IsPow2(entries)
      ensures Valid() && fresh(ring) && fresh(ring.mem) && fresh(skb)
      ensures n == entries && ring.State() == S.Init(entries, SRC_WORDS)
    {
      this.fmt, n, this.schedule := fmt, entries, schedule;
      ring := new S.SrcRing(entries, SRC_WORDS);
      skb := new Option<Frame>[entries](_ => None);
      gap, writeIndex := 0, 0;
      new;
      ModSmall(0, entries);
    }

    /** The device consumes published entries as its schedule says. */
    method DeviceTurn()
      requires ring.Valid()
      modifies ring, this`gap
      ensures ring.Valid() && DeviceOnly(old(ring.State()), ring.State())
    {
      var count := schedule(gap);
      gap := gap + 1;
      for i := 0 to count
        invariant ring.Valid() && DeviceOnly(old(ring.State()), ring.State())
      {
        ring.DeviceFetch();
      }
    }

    /** set_desc, word by word, with the device active between the stores. */
    method Fill(p: nat, d: seq<nat>)
      requires ring.Valid() && |d| == ring.e
      requires ring.h.published + 1 == ring.h.granted && p == Offset(ring.n, ring.e, ring.h.published)
      modifies ring, ring.mem, this`gap
      ensures ring.Valid() && p + ring.e <= ring.mem.Length && ring.mem[p..p + ring.e] == d
      ensures ring.h == old(ring.h).(fetched := ring.h.fetched)
    {
      OffsetInRing(ring.n, ring.e, ring.h.published);
      ghost var h := ring.h;
      for j := 0 to |d|
        invariant ring.Valid() && ring.h == h.(fetched := ring.h.fetched)
        invariant forall i :: 0 <= i < j ==> ring.mem[p + i] == d[i]
      {
        DeviceTurn();
        ring.StoreWord(h.published, p, j, d[j]);
      }
      assert ring.mem[p..p + ring.e] == d;
    }

    /** wireless_simu_hal_srng_test_send. It fails with -ENOBUFS exactly when the tail it cached
        leaves no room, and then changes nothing; otherwise the device sees, from the moment the
        head is published, one more entry, the complete descriptor of this frame. */
    method Send(f: Frame, id: nat) returns (ret: int)
      requires Valid()
      modifies this, ring, ring.mem, skb
      ensures Valid()
      ensures ret == 0 || ret == -ENOBUFS
      ensures old(ring.h.fetched) <= ring.h.cached
      ensures ret == 0 <==> old(ring.h.granted) < ring.h.cached + n - 1
      ensures ret == 0 ==>
                && ring.h.log == old(ring.h.log) + [SrcDesc(fmt, f.paddr, f.len, id, 0, old(writeIndex))]
                && skb[..] == old(skb[..])[old(writeIndex) := Some(f)]
                && writeIndex == (old(writeIndex) + 1) % n
      ensures ret != 0 ==>
                ring.h.log == old(ring.h.log) && skb[..] == old(skb[..]) && writeIndex == old(writeIndex)
      ensures ring.hp == SRC_WORDS * writeIndex
    {
      hide S.Inv, S.GetSucceeds, S.NumFree, SrcDesc;
      ret := 0;
      DeviceTurn();
      ring.AccessBegin();
      DeviceTurn();
      S.NumFreeExact(ring.State());
      S.GetExact(ring.State());
      var free := ring.SrcNumFree(false);
      if free < 1 {
        ret := -ENOBUFS;
        DeviceTurn();
        ring.AccessEnd();
      } else {
        var desc := ring.GetNextEntry();
        Post(desc.value, f, id);
      }
      HeadAt(ring.State());
    }

    /** The rest of a successful send: the descriptor, the side array, the index, access_end. */
    method Post(desc: nat, f: Frame, id: nat)
      requires ring.Valid() && ring.n == n && ring.e == SRC_WORDS && IsPow2(n) && skb.Length == n && ValidLayout(fmt)
      requires ring.h.published + 1 == ring.h.granted && desc == Offset(n, SRC_WORDS, ring.h.published)
      requires writeIndex == ring.h.published % n
      modifies this, ring, ring.mem, skb
      ensures Valid()
      ensures ring.h.cached == old(ring.h.cached)
      ensures ring.h.log == old(ring.h.log) + [SrcDesc(fmt, f.paddr, f.len, id, 0, old(writeIndex))]
      ensures skb[..] == old(skb[..])[old(writeIndex) := Some(f)]
      ensures writeIndex == (old(writeIndex) + 1) % n
    {
      hide S.Readable, S.ReapOk, And;
      var d := SrcDesc(fmt, f.paddr, f.len, id, 0, writeIndex);
      Fill(desc, d);
      skb[writeIndex] := Some(f);
      IndexStep(ring.h.published, n);
      MaskIsMod(writeIndex + 1, n);
      writeIndex := And(writeIndex + 1, n - 1);
      assert ring.mem[..][desc..desc + SRC_WORDS] == d;
      S.EndEffect(ring.State());
      ring.AccessEnd();
    }
  }

  /** What a turn of the device may change. */
  ghost predicate DeviceOnly(y: S.Sys, z: S.Sys) {
    && z.r == y.r.(tpCell := z.r.tpCell)
    && z.h == y.h.(fetched := z.h.fetched) && y.h.fetched <= z.h.fetched
  }
}
