/** The users of pbuf chains, on the pool itself: checksums over a chain, and the receive callback. */
module PbufClients {
  import opened Machine
  import opened PbufStore
  import opened Pbuf
  import PbufRuns
  import Checksum
  import SatHardware
  import SatProtocol
  import SatFirmware

  /** The pieces that a walk over the chain sees. */
  function Payloads(m: Store, ids: seq<Id>): seq<seq<Byte>> {
    seq(|ids|, i requires 0 <= i < |ids| => PayloadOf(m, ids[i]))
  }

  lemma {:induction false} PayloadsFlat(m: Store, ids: seq<Id>)
    ensures Concat(Payloads(m, ids)) == Flat(m, ids)
  {
    if ids != [] {
      assert Payloads(m, ids)[1..] == Payloads(m, ids[1..]);
      PayloadsFlat(m, ids[1..]);
    }
  }

  /** The chain as a checksum sees it, with the payload addresses that `addr` gives. */
  function Segments(m: Store, ids: seq<Id>, addr: Id -> nat): (c: Checksum.Chain)
    ensures Checksum.Flat(c) == Concat(Payloads(m, ids))
  {
    var c := seq(|ids|, i requires 0 <= i < |ids| => Checksum.Segment(addr(ids[i]), PayloadOf(m, ids[i])));
    assert seq(|c|, i requires 0 <= i < |c| => c[i].bytes) == Payloads(m, ids);
    c
  }

  /** inet_chksum_pbuf of a chain in the pool. */
  method InetChksumOf(pool: PbufPool, p: Id, addr: Id -> nat) returns (r: U16)
    requires pool.Valid() && p in pool.mem
    ensures r == Checksum.Complement(Checksum.RfcSum(Flat(pool.mem, pool.Chain(p))))
  {
    var ids := PbufRuns.Walk(pool, p);
    PayloadsFlat(pool.mem, ids);
    r := Checksum.InetChksumPbuf(Segments(pool.mem, ids, addr));
  }

  /**
   sat_recv of a chain in the pool: the reply is the one to its first 512 bytes, and the reference that
   the stack handed over is dropped, whether the packet is answered or not.
   */
  method SatRecvFrom(bus: SatFirmware.SatBus, pool: PbufPool, p: Id) returns (reply: Option<seq<Byte>>)
    requires SatHardware.Quiet(bus.dev) && pool.Valid() && p in pool.handles && p in pool.mem
    modifies bus, pool
    ensures SatHardware.Quiet(bus.dev) && pool.Valid() && pool.Elements() == old(pool.Elements())
    ensures pool.handles == old(pool.handles) - multiset{p} && pool.mem == Dropped(old(pool.mem), old(pool.Chain(p)))
    ensures var bs := Flat(old(pool.mem), old(pool.Chain(p)));
            reply == SatProtocol.Reply(if |bs| <= 512 then bs else bs[..512])
    ensures reply.None? ==> bus.dev == old(bus.dev)
  {
    hide RefOk, Ranked, Dropped, SatProtocol.Reply;
    var ids := PbufRuns.Walk(pool, p);
    PayloadsFlat(pool.mem, ids);
    reply := SatFirmware.SatRecv(bus, Some(Payloads(pool.mem, ids)));
    var _ := pool.Free(p);
  }
}
