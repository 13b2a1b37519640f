/**
 Runs from a fresh pool that reach the cases in which pbuf.c does not do what its callers might expect.
 */
module PbufCases {
  import opened Machine
  import opened PbufStore
  import opened Pbuf
  import opened PbufBytes

  /** Everything that was there is untouched, and `ids` are new, with one reference each. */
  ghost predicate Beside(m0: Store, m: Store, ids: seq<Id>) {
    && (forall z :: z in m0 ==> z in m && m[z] == m0[z] && z !in ids)
    && (forall id :: id in ids ==> id in m && m[id].ref == 1)
  }

  /** pbuf_alloc with enough elements in the pool. */
  method TakeChain(pool: PbufPool, length: U16, first: nat, room: nat) returns (p: Id, ghost ids: seq<Id>)
    requires pool.Valid() && first > 0 && room > 0 && PbufsFor(length, first, room) <= |pool.free|
    modifies pool
    ensures pool.Valid() && pool.handles == old(pool.handles) + multiset{p} && |old(pool.free)| == |pool.free| + |ids|
    ensures Beside(old(pool.mem), pool.mem, ids) && |ids| == PbufsFor(length, first, room)
    ensures IsChain(pool.mem, Some(p), ids) && TotOk(pool.mem, ids) && |Flat(pool.mem, ids)| == length
    ensures ids != [] && ids[0] == p && p in pool.mem && pool.mem[p].totLen == length
    ensures |ids| == 1 ==> |pool.mem[p].payload| == length
    ensures |ids| > 1 ==> |pool.mem[p].payload| == first
  {
    hide RefOk, Ranked, TotOk, Flat, IsChain, PbufsFor;
    var q;
    q, ids := pool.AllocPool(length, first, room);
    p := q.value;
    TakenCard(old(pool.mem), old(pool.free), pool.mem, pool.free, q, ids);
    TakenBeside(old(pool.mem), old(pool.free), pool.mem, pool.free, ids);
    ChainTotal(pool.mem, p, ids);
    if |ids| == 1 {
      assert ids == [p];
      Single(pool.mem, p);
    } else {
      assert |PayloadOf(pool.mem, ids[0])| == Cap(0, first, room);
    }
  }

  lemma TakenBeside(m0: Store, free0: set<Id>, m: Store, free: set<Id>, ids: seq<Id>)
    requires Taken(m0, free0, m, free, ids)
    ensures Beside(m0, m, ids)
  {
    forall id | id in ids ensures id in m && m[id].ref == 1 { assert id in SetOf(ids); }
    forall z | z in m0 ensures z !in ids { assert z in ids ==> z in SetOf(ids); }
  }

  /** What an allocation leaves of a chain that was there before. */
  lemma BesideKeeps(m0: Store, m: Store, ids: seq<Id>, x: Option<Id>, a: seq<Id>)
    requires Beside(m0, m, ids) && IsChain(m0, x, a)
    ensures IsChain(m, x, a) && Flat(m, a) == Flat(m0, a) && (TotOk(m, a) <==> TotOk(m0, a))
    ensures forall id :: id in a ==> id !in ids
  {
    ChainMembers(m0, x, a);
    ChainFrame(m0, m, x, a);
    TotSame(m0, m, a);
  }

  lemma OnlyChain(pool: PbufPool, p: Id, ids: seq<Id>)
    requires pool.Valid() && p in pool.mem && IsChain(pool.mem, Some(p), ids)
    ensures pool.Chain(p) == ids
  {
    ChainUnique(pool.mem, Some(p), pool.Chain(p), ids);
  }

  function UpTo(n: nat): (s: set<Id>)
    ensures |s| == n && forall x :: x in s ==> x < n
  {
    if n == 0 then {} else UpTo(n - 1) + {n - 1}
  }

  lemma {:induction false} OneByteEach(n: nat)
    requires n > 0
    ensures PbufsFor(n, 1, 1) == n
  {
    if n > 1 { OneByteEach(n - 1); }
  }

  lemma {:induction false} AllUnshared(m: Store, ids: seq<Id>)
    requires forall id :: id in ids ==> id in m && m[id].ref == 1
    ensures Unshared(m, ids) == |ids|
  {
    if ids != [] { AllUnshared(m, ids[1..]); }
  }

  lemma AloneChain(m: Store, p: Id)
    requires p in m && m[p].next.None?
    ensures IsChain(m, Some(p), [p])
  {
    assert [p][1..] == [];
  }

  lemma ChainLive(m: Store, p: Id, ids: seq<Id>)
    requires IsChain(m, Some(p), ids)
    ensures p in m && (|ids| == 1 ==> m[p].next.None?)
  {
  }

  /** pbuf_cat of two halves of 64 KiB: the bytes are all there, but the totals are not. */
  method CatTotalsWrap() returns (pool: PbufPool, h: Id, r: Outcome)
    ensures r.Returned? && pool.Valid() && h in pool.mem && !TotOk(pool.mem, pool.Chain(h))
  {
    hide RefOk, Ranked, IsChain, TotOk, Flat, Beside;
    pool := new PbufPool({0, 1});
    var t: Id;
    ghost var a, b;
    h, a := TakeChain(pool, 0x8000, 0x8000, 1);
    ghost var m1 := pool.mem;
    t, b := TakeChain(pool, 0x8000, 0x8000, 1);
    BesideKeeps(m1, pool.mem, b, Some(h), a);
    ChainLive(pool.mem, h, a);
    OnlyChain(pool, h, a);
    OnlyChain(pool, t, b);
    RightTotalsReturn(pool.mem, h, a);
    r := pool.Cat(h, t);
    ChainLive(pool.mem, h, a + b);
    OnlyChain(pool, h, a + b);
  }

  /** A chain of two full pbufs with one more handle on its head, and a pbuf of its own. */
  method SharedHead() returns (pool: PbufPool, p: Id, t: Id, ghost a: seq<Id>)
    ensures fresh(pool) && pool.Valid() && p in pool.handles && t in pool.handles - multiset{p}
    ensures p in pool.mem && t in pool.mem && pool.mem[t].next.None? && |a| == 2 && a[0] == p && t !in a
    ensures IsChain(pool.mem, Some(p), a) && pool.mem[p].ref == 2 && pool.mem[p].totLen == 4 &&
            |pool.mem[p].payload| == 2
  {
    hide RefOk, Ranked, TotOk, Flat, IsChain, PbufsFor;
    pool := new PbufPool({0, 1, 2});
    PbufsForStep(4, 2, 2);
    PbufsForStep(2, 2, 2);
    PbufsForStep(1, 2, 2);
    ghost var b;
    p, a := TakeChain(pool, 4, 2, 2);
    ghost var m1 := pool.mem;
    t, b := TakeChain(pool, 1, 2, 2);
    ghost var m2 := pool.mem;
    BesideKeeps(m1, m2, b, Some(p), a);
    ChainLive(m2, t, b);
    var _ := pool.Ref(p);
    RefKeepsBytes(m2, p, Some(p), a);
  }

  /** What pbuf_free_header of its first pbuf makes of a shared head. */
  lemma HeadLeft(m0: Store, m: Store, a: seq<Id>, p: Id, t: Id)
    requires |a| == 2 && a[0] == p && p in m0 && m0[p].ref == 2 && |m0[p].payload| == 2 && t in m0 && t !in a
    ensures HeaderIndex(m0, a, 2) == 1 && |Flat(m0, a[..1])| == 2
    ensures HeaderNodes(m0, m, a, 1, 0) ==> p in m && m[p] == m0[p].(next := None, ref := 1) && t in m && m[t] == m0[t]
  {
    assert a[..1] == [p];
    Single(m0, p);
    assert HeaderIndex(m0, a[1..], 0) == 0;
    assert HeaderNodes(m0, m, a, 1, 0) ==> Unlinked(m0, m, a[0]) && Unchanged(m0, m, t);
  }

  /**
   pbuf_free_header of a chain whose head is shared leaves the head with the total of the chain it was
   cut from; a later pbuf_cat to it halts.
   */
  method StaleTotalHalts() returns (r: Outcome)
    ensures r.Halted?
  {
    hide RefOk, Ranked, TotOk, Flat, IsChain, HeaderIndex, HeaderNodes, HandleOf;
    var pool, p, t, a := SharedHead();
    ghost var m0 := pool.mem;
    OnlyChain(pool, p, a);
    var _ := pool.FreeHeader(p, 2);
    HeadLeft(m0, pool.mem, a, p, t);
    AloneChain(pool.mem, p);
    AloneChain(pool.mem, t);
    OnlyChain(pool, p, [p]);
    OnlyChain(pool, t, [t]);
    r := pool.Cat(p, t);
  }

  lemma WrapsAround(n: nat)
    ensures Wrapped(256 * n) == 0
  {
  }

  /** A chain of `n` pbufs with nobody else to hold them. */
  method UnsharedChain(n: U16) returns (pool: PbufPool, p: Id, ghost a: seq<Id>)
    requires n > 0
    ensures fresh(pool) && pool.Valid() && p in pool.mem && pool.Chain(p) == a && |a| == n
    ensures Unshared(pool.mem, a[1..]) == n - 1 && !DechainHalts(pool.mem, p)
  {
    hide RefOk, Ranked, TotOk, Flat, IsChain, Unshared, UpTo, PbufsFor, DechainHalts, CatHalts;
    pool := new PbufPool(UpTo(n));
    OneByteEach(n);
    p, a := TakeChain(pool, n, 1, 1);
    OnlyChain(pool, p, a);
    RightTotalsReturn(pool.mem, p, a);
    AllUnshared(pool.mem, a[1..]);
  }

  /** pbuf_dechain of a chain whose whole tail of 256 * n pbufs is released returns a released pbuf. */
  method DechainDangles(n: nat) returns (pool: PbufPool, q: Option<Id>)
    requires 1 <= n < 256
    ensures pool.Valid() && q.Some? && q.value !in pool.mem
  {
    hide RefOk, Ranked, TotOk, Flat, IsChain, Unshared, Wrapped, Dropped, Detached, DechainHalts;
    WrapsAround(n);
    var p, r;
    ghost var a;
    pool, p, a := UnsharedChain(256 * n + 1);
    q, r := pool.Dechain(p);
  }

  /** pbuf_copy_partial_pbuf to an offset in the last of three target pbufs halts, although the data fits. */
  method CopyBehindFirstHalts() returns (r: Err)
    ensures r.Halted?
  {
    hide RefOk, Ranked, TotOk, Flat, IsChain, PbufsFor;
    var pool := new PbufPool({0, 1, 2, 3});
    OneByteEach(3);
    OneByteEach(1);
    var to, a := TakeChain(pool, 3, 1, 1);
    ghost var m1 := pool.mem;
    var from, b := TakeChain(pool, 1, 1, 1);
    BesideKeeps(m1, pool.mem, b, Some(to), a);
    ghost var d;
    r, d := CopyPartialPbuf(pool, Some(to), Some(from), 1, 2, a, b);
  }

  /** pbuf_memcmp with the only difference at index 65534 answers as for a chain that is too short. */
  method MemcmpAmbiguous() returns (pool: PbufPool, p: Id, s: Payload, r: U16)
    ensures pool.Valid() && p in pool.mem && |s| <= |Flat(pool.mem, pool.Chain(p))| && r == 0xFFFF
  {
    hide RefOk, Ranked, TotOk, IsChain, Flat;
    pool := new PbufPool({0});
    ghost var ids;
    p, ids := TakeChain(pool, 0xFFFF, 0xFFFF, 1);
    OnlyChain(pool, p, ids);
    assert ids == [p];
    var bs := pool.mem[p].payload;
    Single(pool.mem, p);
    s := bs[0xFFFE := if bs[0xFFFE] == 0 then 1 else 0];
    r := Memcmp(pool.mem, p, 0, s, ids);
    assert bs[0..0xFFFF] == bs && bs[0xFFFE] != s[0xFFFE];
  }
}
