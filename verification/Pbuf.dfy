/**
 The packet buffer operations of pbuf.c on a pool of pbufs. Chains are walked and relinked as in the
 C code; ghost state counts the handles that callers hold and ranks pbufs so that chains end.
 */
module Pbuf {
  import opened Machine
  import opened PbufStore

  /** The 8-bit counter of released pbufs. */
  function Wrapped(n: nat): nat { n % 256 }
  function NextCount(count: nat): nat { (count + 1) % 256 }

  lemma WrapCount(n: nat)
    ensures NextCount(Wrapped(n)) == Wrapped(n + 1)
  {
  }

  lemma WrappedIs(n: nat)
    ensures Wrapped(n) == n % 256
  {
  }

  lemma WrapZero()
    ensures Wrapped(0) == 0
  {
  }

  class PbufPool {
    var mem: Store
    var free: set<Id>
    ghost var handles: multiset<Id>
    ghost var rank: map<Id, nat>

    ghost predicate Valid()
      reads this
    {
      RefOk(mem, handles) && Ranked(mem, rank) && mem.Keys !! free
    }

    /** The elements of the pool, live or free. */
    function Elements(): set<Id>
      reads this
    {
      mem.Keys + free
    }

    /** When every handle has been given back, so has every element: nothing leaks. */
    lemma AllReturned()
      requires Valid() && handles == multiset{}
      ensures mem == map[] && free == Elements()
    {
      NoHandlesNoPbufs(mem, rank);
    }

    lemma AllocStarts(length: nat, first: nat, room: nat)
      requires Valid() && first > 0 && room > 0
      ensures Allocating(mem, free, mem, free, None, [], 0, length, first, length, first, room)
      ensures handles + HandleOf(None) == handles
    {
      BuildingStarts(mem, free, length);
    }

    /** The chain from a live pbuf. */
    ghost function Chain(p: Id): (ids: seq<Id>)
      requires Valid() && p in mem
      reads this
      ensures IsChain(mem, Some(p), ids)
    {
      RefOkClosed(mem, handles);
      ChainOf(mem, rank, Some(p))
    }

    constructor (elements: set<Id>)
      ensures Valid() && mem == map[] && free == elements && handles == multiset{}
    {
      mem, free, handles, rank := map[], elements, multiset{}, map[];
    }

    /** One round of pbuf_free: take a reference off `x`, and release it if that was the last. */
    method DropOne(x: Id, ghost m0: Store, ghost ids: seq<Id>, ghost rest: seq<Id>, ghost n: nat)
      returns (next: Option<Id>, released: bool)
      requires Dropping(m0, ids, handles, rank, mem, Some(x), rest, n) && mem.Keys !! free
      modifies this`mem, this`free
      ensures mem.Keys !! free && Elements() == old(Elements())
      ensures if released then |mem| < |old(mem)| && rest != [] &&
              Dropping(m0, ids, handles, rank, mem, next, rest[1..], n + 1)
              else |mem| == |old(mem)| && next.None? && Dropping(m0, ids, handles, rank, mem, None, rest, n)
    {
      hide Dropping;
      DropHead(m0, ids, handles, rank, mem, x, rest, n);
      var ref := mem[x].ref - 1;
      if ref == 0 {
        DropReleases(m0, ids, handles, rank, mem, x, rest, n);
        ReleaseKeys(mem, free, x);
        next, released := mem[x].next, true;
        mem, free := mem - {x}, free + {x};
      } else {
        DropStops(m0, ids, handles, rank, mem, x, rest, n);
        UpdateKeys(mem, x, mem[x].(ref := ref));
        mem := mem[x := mem[x].(ref := ref)];
        next, released := None, false;
      }
    }

    /** pbuf_free: drop a reference that is counted beside `handles`. */
    method DropRef(p: Id, ghost ids: seq<Id>) returns (count: nat)
      requires RefOk(mem, handles + multiset{p}) && Ranked(mem, rank) && mem.Keys !! free
      requires IsChain(mem, Some(p), ids)
      modifies this`mem, this`free
      ensures Valid() && Elements() == old(Elements())
      ensures mem == Dropped(old(mem), ids) && count == Wrapped(Unshared(old(mem), ids))
    {
      hide RefOk, Ranked, IsChain, Dropped, Unshared, Wrapped, NextCount, Dropping;
      WrapZero();
      DropStarts(mem, ids, handles, rank, p);
      count := 0;
      var cur := Some(p);
      ghost var rest, n := ids, 0;
      while cur.Some?
        invariant Dropping(old(mem), ids, handles, rank, mem, cur, rest, n)
        invariant mem.Keys !! free && Elements() == old(Elements()) && count == Wrapped(n)
        decreases |mem|, if cur.Some? then 1 else 0
      {
        var next, released := DropOne(cur.value, old(mem), ids, rest, n);
        if released {
          WrapCount(n);
          count, n, rest := NextCount(count), n + 1, rest[1..];
        }
        cur := next;
      }
      DropEnds(old(mem), ids, handles, rank, mem, rest, n);
    }

    /** pbuf_free of a handle. */
    method Free(p: Id) returns (count: nat)
      requires Valid() && p in handles && p in mem
      modifies this
      ensures Valid() && Elements() == old(Elements()) && rank == old(rank)
      ensures handles == old(handles) - multiset{p}
      ensures mem == Dropped(old(mem), old(Chain(p))) && count == Unshared(old(mem), old(Chain(p))) % 256
    {
      hide RefOk, Ranked;
      ghost var ids := Chain(p);
      handles := handles - multiset{p};
      assert handles + multiset{p} == old(handles);
      count := DropRef(p, ids);
    }

    /** pbuf_ref, which halts when the 8-bit counter overflows. */
    method Ref(p: Id) returns (r: Outcome)
      requires Valid() && p in mem
      modifies this`mem, this`handles
      ensures Valid() && Elements() == old(Elements())
      ensures r.Halted? <==> old(mem)[p].ref == 255
      ensures r.Halted? ==> mem == old(mem) && handles == old(handles)
      ensures r.Returned? ==> handles == old(handles) + multiset{p}
      ensures r.Returned? ==> mem == old(mem)[p := old(mem)[p].(ref := old(mem)[p].ref + 1)]
    {
      hide RefOk, Ranked;
      if mem[p].ref == 255 {
        return Halted;
      }
      RefOkRef(mem, handles, p);
      UpdateKeys(mem, p, mem[p].(ref := mem[p].ref + 1));
      RankedFewer(mem, mem[p := mem[p].(ref := mem[p].ref + 1)], rank);
      mem := mem[p := mem[p].(ref := mem[p].ref + 1)];
      handles := handles + multiset{p};
      r := Returned;
    }

    /** The loop of pbuf_cat: add the total of `t` along the chain of `h`, in front of its last pbuf. */
    method AddTotalsAlong(h: Id, t: Id, ghost a: seq<Id>) returns (p: Id)
      requires IsChain(mem, Some(h), a) && t in mem && t !in a
      modifies this`mem
      ensures a != [] && p == a[|a| - 1] && p in old(mem)
      ensures mem == AddTotals(old(mem), a[..|a| - 1], old(mem)[t].totLen)
      ensures t in mem && p in mem && mem[t] == old(mem)[t] && mem[p] == old(mem)[p]
    {
      hide IsChain, AddTotals;
      ghost var d := mem[t].totLen;
      ChainMembers(mem, Some(h), a);
      ChainDistinct(mem, Some(h), a);
      ChainHead(mem, h, a);
      AddNoTotals(mem, a, d);
      p := h;
      ghost var k := 0;
      while mem[p].next.Some?
        invariant 0 <= k < |a| && p == a[k] && mem == AddTotals(old(mem), a[..k], d)
        invariant t in mem && p in mem && mem[t] == old(mem)[t] && mem[p] == old(mem)[p]
        decreases |a| - k
      {
        ChainSuffix(old(mem), Some(h), a, k);
        AddTotalsStep(old(mem), a, k, d);
        AddTotalsAt(old(mem), a[..k + 1], d, t);
        AddTotalsAt(old(mem), a[..k + 1], d, a[k + 1]);
        var q := mem[p].next.value;
        mem := mem[p := mem[p].(totLen := Add16(mem[p].totLen, mem[t].totLen))];
        p, k := q, k + 1;
      }
      ChainSuffix(old(mem), Some(h), a, k);
    }

    /**
     pbuf_cat: the handle on `t` becomes the next pointer of the last pbuf of `h`, and the bytes are those
     of both chains. It halts exactly when the total of that last pbuf is not its length. Totals that
     were right before are right afterwards exactly when their sum fits in 16 bits.
     */
    method Cat(h: Id, t: Id) returns (r: Outcome)
      requires Valid() && h in mem && t in mem && t in handles
      requires forall id :: id in Chain(h) ==> id !in Chain(t)
      modifies this`mem, this`handles, this`rank
      ensures Valid() && Elements() == old(Elements())
      ensures r.Halted? <==> CatHalts(old(mem), old(Chain(h)))
      ensures r.Halted? <==>
              var a, m0 := old(Chain(h)), old(mem);
              a != [] && a[|a| - 1] in m0 && m0[a[|a| - 1]].totLen != |m0[a[|a| - 1]].payload|
      ensures var a, b, m0 := old(Chain(h)), old(Chain(t)), old(mem);
              if r.Halted? then handles == old(handles) && mem == AddTotals(m0, a[..|a| - 1], m0[t].totLen)
              else
                && handles == old(handles) - multiset{t} && Joinable(m0, a, t) && mem == Joined(m0, a, t)
                && IsChain(mem, Some(h), a + b) && Flat(mem, a + b) == Flat(m0, a) + Flat(m0, b)
                && (TotOk(m0, a) && TotOk(m0, b) ==> (TotOk(mem, a + b) <==> |Flat(m0, a)| + |Flat(m0, b)| <= 0xFFFF))
    {
      hide RefOk, Ranked, TotOk, Flat, IsChain, AddTotals, Raised, Add16;
      ghost var a, b, m0 := Chain(h), Chain(t), mem;
      CatStarts(m0, h, t, a, b);
      var p := AddTotalsAlong(h, t, a);
      if mem[p].totLen != |mem[p].payload| {
        AddTotalsKeeps(m0, a[..|a| - 1], m0[t].totLen, handles, rank);
        return Halted;
      }
      CatLinks(m0, handles, rank, a, b, t);
      CatBytes(m0, a, b, t);
      AddTotalsAt(m0, a, m0[t].totLen, p);
      AddTotalsStep(m0, a, |a| - 1, m0[t].totLen);
      assert a[..|a|] == a;
      mem := mem[p := mem[p].(totLen := Add16(mem[p].totLen, mem[t].totLen))];
      UpdateKeys(mem, p, mem[p].(next := Some(t)));
      mem := mem[p := mem[p].(next := Some(t))];
      handles, rank := handles - multiset{t}, Raised(rank, t, b);
      r := Returned;
    }

    /** pbuf_chain: as pbuf_cat, but the caller keeps its handle on `t`, whose counter must not overflow. */
    method ChainTo(h: Id, t: Id) returns (r: Outcome)
      requires Valid() && h in mem && t in mem && t in handles
      requires forall id :: id in Chain(h) ==> id !in Chain(t)
      modifies this`mem, this`handles, this`rank
      ensures Valid() && Elements() == old(Elements())
      ensures r.Halted? <==> CatHalts(old(mem), old(Chain(h))) || old(mem)[t].ref == 255
      ensures r.Returned? ==>
                var a, b, m0 := old(Chain(h)), old(Chain(t)), old(mem);
                && handles == old(handles) && Joinable(m0, a, t) && t in Joined(m0, a, t) && m0[t].ref < 255
                && mem == Joined(m0, a, t)[t := m0[t].(ref := m0[t].ref + 1)]
                && IsChain(mem, Some(h), a + b) && Flat(mem, a + b) == Flat(m0, a) + Flat(m0, b)
                && (TotOk(m0, a) && TotOk(m0, b) ==> (TotOk(mem, a + b) <==> |Flat(m0, a)| + |Flat(m0, b)| <= 0xFFFF))
    {
      hide RefOk, Ranked, TotOk, Flat, IsChain, AddTotals, Add16, CatHalts;
      ghost var a, b := Chain(h), Chain(t);
      ghost var m0 := mem;
      r := Cat(h, t);
      if r.Halted? {
        return;
      }
      JoinedAt(m0, a, t, a[|a| - 1], b);
      ghost var m1 := mem;
      r := Ref(t);
      if r.Halted? {
        return;
      }
      assert old(handles) - multiset{t} + multiset{t} == old(handles);
      RefKeepsBytes(m1, t, Some(h), a + b);
    }

    /**
     pbuf_dechain: `p` stands alone, and the reference it held on its successor is dropped. The result
     is the successor unless the 8-bit count says that it was released. It halts exactly when the total
     of `p` is not its length plus the total of its successor.
     */
    method Dechain(p: Id) returns (q: Option<Id>, r: Outcome)
      requires Valid() && p in mem
      modifies this`mem, this`free
      ensures Valid() && Elements() == old(Elements())
      ensures r.Halted? <==> DechainHalts(old(mem), p)
      ensures r.Halted? <==>
              var ids, m0 := old(Chain(p)), old(mem);
              m0[p].totLen != |m0[p].payload| + if |ids| > 1 && ids[1] in m0 then m0[ids[1]].totLen else 0
      ensures r.Halted? ==> mem == old(mem)
      ensures r.Returned? ==>
                var ids := old(Chain(p));
                var tail := ids[1..];
                var k := Unshared(old(mem), tail);
                && (q == if tail == [] || k % 256 > 0 then None else Some(tail[0]))
                && mem == Dropped(Detached(old(mem), p), tail)
                && IsChain(mem, Some(p), [p]) && TotOk(mem, [p]) && Flat(mem, [p]) == old(mem)[p].payload
                && (k == 0 ==> IsChain(mem, q, tail) && Flat(mem, tail) == Flat(old(mem), tail))
                && (k == 0 ==> (TotOk(mem, tail) <==> TotOk(old(mem), tail)))
                && (q.Some? && q.value !in mem <==> k > 0 && k % 256 == 0)
    {
      hide RefOk, Ranked, Dropped, Unshared, Wrapped;
      ghost var ids, m0 := Chain(p), mem;
      ghost var tail := ids[1..];
      DetachFacts(m0, handles, rank, p, ids);
      UpdateKeys(m0, p, Detached(m0, p)[p]);
      WrapZero();
      q := mem[p].next;
      if q.None? {
        if mem[p].totLen != |mem[p].payload| {
          return None, Halted;
        }
        DetachResult(m0, handles, p, ids);
        DetachAlone(m0, p, ids);
        return None, Returned;
      }
      if mem[q.value].totLen != mem[p].totLen - |mem[p].payload| {
        return None, Halted;
      }
      DetachResult(m0, handles, p, ids);
      mem := mem[q.value := mem[q.value].(totLen := mem[p].totLen - |mem[p].payload|)];
      assert mem == m0;
      mem := Detached(mem, p);
      var count := DropRef(q.value, tail);
      WrappedIs(Unshared(m0, tail));
      q, r := if count > 0 then None else q, Returned;
    }

    /**
     The loop of pbuf_realloc: step over the pbufs that stay whole, with `s` taken off their totals. It
     fails when the chain has fewer than `newLen` bytes.
     */
    method WalkToCut(p: Id, newLen: U16, s: U16, ghost ids: seq<Id>) returns (r: Outcome, q: Id, rem: nat)
      requires IsChain(mem, Some(p), ids)
      modifies this`mem
      ensures ids != [] && (r.Halted? <==> newLen > |Flat(old(mem), ids)|)
      ensures r.Halted? ==> mem == AddTotals(old(mem), ids, Neg16(s))
      ensures r.Returned? ==>
                var k := KeepIndex(old(mem), ids, newLen);
                && q == ids[k] && q in old(mem) && rem + |Flat(old(mem), ids[..k])| == newLen
                && rem <= |old(mem)[q].payload|
                && mem == AddTotals(old(mem), ids[..k], Neg16(s)) && q in mem && mem[q] == old(mem)[q]
    {
      hide IsChain, AddTotals, Add16, Neg16, TotOk, Flat, KeepIndex;
      ghost var m0 := mem;
      ChainMembers(m0, Some(p), ids);
      ChainDistinct(m0, Some(p), ids);
      ChainHead(m0, p, ids);
      AddNoTotals(m0, ids, Neg16(s));
      FlatNothing(m0, ids);
      q, rem := p, newLen;
      ghost var k := 0;
      while rem > |mem[q].payload|
        invariant 0 <= k < |ids| && q == ids[k] && rem + |Flat(m0, ids[..k])| == newLen
        invariant KeepIndex(m0, ids, newLen) == k + KeepIndex(m0, ids[k..], rem)
        invariant mem == AddTotals(m0, ids[..k], Neg16(s)) && q in mem && mem[q] == m0[q]
        decreases |ids| - k
      {
        CutStep(m0, ids, k, rem);
        ChainSuffix(m0, Some(p), ids, k);
        AddTotalsStep(m0, ids, k, Neg16(s));
        rem := rem - |mem[q].payload|;
        var next := mem[q].next;
        mem := mem[q := mem[q].(totLen := Add16(mem[q].totLen, Neg16(s)))];
        if next.None? {
          assert ids[..k + 1] == ids;
          return Halted, q, rem;
        }
        AddTotalsAt(m0, ids[..k + 1], Neg16(s), ids[k + 1]);
        q, k := next.value, k + 1;
      }
      CutEnds(m0, ids, k, rem);
      r := Returned;
    }

    /**
     pbuf_realloc: a length that the total already has or exceeds changes nothing. Otherwise the chain
     keeps its first `newLen` bytes, and the pbufs behind them are dropped; it halts exactly when the
     chain does not have that many bytes. Totals that were right stay right.
     */
    method Realloc(p: Id, newLen: U16) returns (r: Outcome)
      requires Valid() && p in mem
      modifies this`mem, this`free
      ensures Valid() && Elements() == old(Elements())
      ensures r.Halted? <==> |Flat(old(mem), old(Chain(p)))| < newLen < old(mem)[p].totLen
      ensures r.Halted? ==> mem == AddTotals(old(mem), old(Chain(p)), Neg16(old(mem)[p].totLen - newLen))
      ensures newLen >= old(mem)[p].totLen ==> mem == old(mem)
      ensures r.Returned? && newLen < old(mem)[p].totLen ==>
                var ids, m0 := old(Chain(p)), old(mem);
                var k := KeepIndex(m0, ids, newLen);
                var n := newLen - |Flat(m0, ids[..k])|;
                && ids[k] in m0 && 0 <= n <= |m0[ids[k]].payload|
                && mem == Dropped(Shortened(m0, ids, k, n, m0[p].totLen - newLen), ids[k + 1..])
                && IsChain(mem, Some(p), ids[..k + 1]) && Flat(mem, ids[..k + 1]) == Flat(m0, ids)[..newLen]
                && (k > 0 ==> n > 0) && (TotOk(m0, ids) ==> TotOk(mem, ids[..k + 1]))
    {
      hide RefOk, Ranked, AddTotals, Add16, Neg16, Dropped, Unshared, KeepIndex, IsChain, TotOk, Flat;
      ghost var m0, ids := mem, Chain(p);
      if newLen >= mem[p].totLen {
        return Returned;
      }
      var s := mem[p].totLen - newLen;
      var q, rem;
      r, q, rem := WalkToCut(p, newLen, s, ids);
      if r.Halted? {
        AddTotalsKeeps(m0, ids, Neg16(s), handles, rank);
        return;
      }
      ghost var k := KeepIndex(m0, ids, newLen);
      KeepIndexExact(m0, ids, newLen);
      ShortenedLinks(m0, handles, rank, Some(p), ids, k, rem, s);
      ShortenedBytes(m0, Some(p), ids, k, rem, s);
      if TotOk(m0, ids) {
        TotHead(m0, p, ids);
        ShortenedTotals(m0, Some(p), ids, k, rem, s);
      }
      var next := mem[q].next;
      mem := mem[q := mem[q].(payload := mem[q].payload[..rem], totLen := rem, next := None)];
      assert mem == Shortened(m0, ids, k, rem, s);
      ShortenedDrop(m0, handles, rank, p, ids, k, rem, s);
      if next.Some? {
        var _ := DropRef(next.value, ids[k + 1..]);
      } else {
        assert handles + HandleOf(next) == handles;
      }
    }

    /** One pbuf of pbuf_free_header: the handle moves on to its successor. */
    method PopHead(f: Id, ghost ids: seq<Id>) returns (next: Option<Id>)
      requires Valid() && f in handles && f in mem && IsChain(mem, Some(f), ids)
      modifies this`mem, this`free, this`handles
      ensures Valid() && Elements() == old(Elements())
      ensures next == old(mem)[f].next && handles == old(handles) - multiset{f} + HandleOf(next)
      ensures mem == Popped(old(mem), f)
    {
      hide RefOk, Ranked, IsChain, Dropped;
      PopLinks(mem, handles, rank, f);
      next := mem[f].next;
      mem := mem[f := mem[f].(next := None)];
      handles := handles - multiset{f} + HandleOf(next);
      var _ := DropRef(f, [f]);
    }

    /** pbuf_remove_header of part of the head of a chain. */
    method TrimHead(f: Id, n: U16, ghost ids: seq<Id>)
      requires Valid() && f in mem && IsChain(mem, Some(f), ids) && n <= |mem[f].payload|
      modifies this`mem
      ensures Valid() && Elements() == old(Elements()) && mem == Trimmed(old(mem), f, n)
    {
      hide RefOk, Ranked, IsChain, TotOk, Flat, Add16, Neg16;
      TrimKeeps(mem, handles, rank, f, ids, n);
      mem := Trimmed(mem, f, n);
    }

    /** One round of pbuf_free_header: the head goes, or it is cut and that is all. */
    method HeaderRound(f: Id, left: U16, ghost m0: Store, ghost ids: seq<Id>, ghost k: nat, ghost size: nat,
                       ghost others: multiset<Id>)
      returns (p: Option<Id>, left': U16, ghost k': nat, ghost cut: nat)
      requires Valid() && handles == others + HandleOf(Some(f)) && left > 0
      requires k < |ids| && ids[k] == f && HeaderIn(m0, mem, ids, k, size, left) && HeaderNodes(m0, mem, ids, k, 0)
      requires size == left + |Flat(m0, ids[..k])| && forall i, j :: 0 <= i < j < |ids| ==> ids[i] != ids[j]
      modifies this`mem, this`free, this`handles
      ensures Valid() && Elements() == old(Elements()) && handles == others + HandleOf(p)
      ensures k' <= |ids| && p == HeadFrom(ids, k') && HeaderIn(m0, mem, ids, k', size, left')
      ensures HeaderNodes(m0, mem, ids, k', cut) && size == left' + |Flat(m0, ids[..k'])| + cut &&
              (left' > 0 ==> cut == 0)
      ensures k' > k || (k' == k && left' < left)
    {
      hide RefOk, Ranked, IsChain, TotOk, Flat, Popped, Tail, HeaderIndex, HeaderIn, HandleOf, Trimmed, HeaderNodes,
           HeadCut;
      HeaderHead(m0, mem, ids, k, size, left);
      assert Unchanged(m0, mem, f);
      if left >= |mem[f].payload| {
        HeaderPop(m0, mem, handles, ids, k, size, left);
        HandleMoves(others, f, mem[f].next);
        NodesPop(m0, mem, ids, k);
        FlatNext(m0, ids, k);
        left', k', cut := left - |mem[f].payload|, k + 1, 0;
        p := PopHead(f, ids[k..]);
      } else {
        HeaderTrim(m0, mem, handles, rank, ids, k, size, left);
        NodesTrim(m0, mem, ids, k, left);
        TrimHead(f, left, ids[k..]);
        p, left', k', cut := Some(f), 0, k, left;
      }
    }

    /** pbuf_free_header: the chain without its first `size` bytes, and the handle on its new head. */
    method FreeHeader(q: Id, size: U16) returns (p: Option<Id>)
      requires Valid() && q in mem && q in handles
      modifies this`mem, this`free, this`handles
      ensures Valid() && Elements() == old(Elements()) && handles == old(handles) - multiset{q} + HandleOf(p)
      ensures var ids := old(Chain(q));
              var k := HeaderIndex(old(mem), ids, size);
              && p == HeadFrom(ids, k)
              && IsChain(mem, p, ids[k..]) && Flat(mem, ids[k..]) == Tail(Flat(old(mem), ids), size)
              && (TotOk(old(mem), ids) ==> TotOk(mem, ids[k..]))
              && size >= |Flat(old(mem), ids[..k])| &&
                 HeaderNodes(old(mem), mem, ids, k, size - |Flat(old(mem), ids[..k])|)
              && (k > 0 ==> |Flat(old(mem), ids[..k - 1])| < size)
              && (k < |ids| ==> size < |Flat(old(mem), ids[..k])| + |PayloadOf(old(mem), ids[k])| ||
                                size == |Flat(old(mem), ids[..k])|)
    {
      hide RefOk, Ranked, IsChain, TotOk, Flat, Tail, HeaderIndex, HeaderIn, HeaderNodes, HandleOf, Elements;
      ghost var m0, ids, k, cut := mem, Chain(q), 0, 0;
      p := Some(q);
      var left: U16 := size;
      ghost var others := handles - multiset{q};
      HandleSplit(handles, q);
      HeaderStart(m0, q, ids, size);
      NodesStart(m0, q, ids);
      FlatNothing(m0, ids);
      ChainDistinct(m0, Some(q), ids);
      while left > 0 && p.Some?
        invariant Valid() && Elements() == old(Elements()) && handles == others + HandleOf(p)
        invariant k <= |ids| && p == HeadFrom(ids, k) && HeaderIn(m0, mem, ids, k, size, left)
        invariant HeaderNodes(m0, mem, ids, k, cut) && size == left + |Flat(m0, ids[..k])| + cut &&
                  (left > 0 ==> cut == 0)
        decreases |ids| - k, left
      {
        p, left, k, cut := HeaderRound(p.value, left, m0, ids, k, size, others);
      }
      HeaderEnd(m0, mem, ids, k, size, left);
      HeaderIndexExact(m0, ids, size);
      NodesEnd(m0, mem, ids, k, cut, left);
    }

    /** memp_malloc of a pool element, as a pbuf of its own. */
    method TakeElement(rem: U16, qlen: nat) returns (q: Id, ghost bs: Payload)
      requires Valid() && free != {} && qlen <= rem
      modifies this`mem, this`free, this`handles, this`rank
      ensures Valid() && Elements() == old(Elements()) && handles == old(handles) + multiset{q}
      ensures q in old(free) && q !in old(mem) && free == old(free) - {q} && |bs| == qlen
      ensures mem == old(mem)[q := PbufStore.Pbuf(None, bs, rem, 1)]
    {
      hide RefOk, Ranked;
      q :| q in free;
      var cs: Payload := seq(qlen, _ => 0);
      bs := cs;
      var node := PbufStore.Pbuf(None, cs, rem, 1);
      RefOkAlloc(mem, handles, q, node);
      RefOkClosed(mem, handles);
      RankedAlloc(mem, rank, q, node);
      assert mem[q := node].Keys == mem.Keys + {q};
      mem, free := mem[q := node], free - {q};
      handles, rank := handles + multiset{q}, rank[q := 0];
    }

    /** One round of pbuf_alloc: a fresh pbuf from the pool behind the chain so far, if there is one. */
    method GrowChain(head: Option<Id>, last: Id, rem: U16, qlen: nat, ghost ids: seq<Id>, ghost m0: Store,
                     ghost free0: set<Id>, ghost length: nat, ghost was: multiset<Id>, ghost first: nat,
                     ghost room: nat)
      returns (q: Id)
      requires Valid() && free != {} && handles == was + HandleOf(head)
      requires Building(m0, free0, mem, free, head, ids, rem, length) && (head.Some? ==> last == ids[|ids| - 1])
      requires Full(mem, ids, first, room, |ids|) && qlen == Filling(rem, |ids|, first, room)
      modifies this`mem, this`free, this`handles, this`rank
      ensures Valid() && Elements() == old(Elements())
      ensures handles == was + HandleOf(Started(head, q))
      ensures Building(m0, free0, mem, free, Started(head, q), ids + [q], rem - qlen, length)
      ensures Full(mem, ids + [q], first, room, if rem > qlen then |ids| + 1 else |ids|)
    {
      hide RefOk, Ranked, IsChain, TotBefore, Taken, Flat, Raised, Closed, HandleOf, Full;
      ghost var before := handles;
      ghost var bs: Payload;
      q, bs := TakeElement(rem, qlen);
      TakenStep(m0, free0, old(mem), old(free), ids, q, mem[q]);
      ChainBegins(old(mem), rem, q, bs);
      ChainNone(old(mem), head, ids);
      FlatNone(old(mem), ids);
      HandleStarts(was, q);
      assert ids == [] ==> ids + [q] == [q];
      if head.Some? {
        ChainGrows(old(mem), head, ids, rem, q, bs);
        LinkFresh(mem, before, rank, last, q);
        TakenLink(m0, free0, mem, free, ids + [q], last, Some(q));
        UpdateKeys(mem, last, mem[last].(next := Some(q)));
        mem := mem[last := mem[last].(next := Some(q))];
        handles, rank := before, Raised(rank, q, [q]);
      }
      ChainMembers(old(mem), head, ids);
      FullGrows(old(mem), mem, ids, q, rem, first, room);
    }

    /** One round of pbuf_alloc with an element to take. */
    method AllocRound(p: Option<Id>, last: Id, rem: U16, cap: nat, ghost ids: seq<Id>, ghost m0: Store,
                      ghost free0: set<Id>, ghost length: nat, ghost was: multiset<Id>, ghost first: nat,
                      ghost room: nat)
      returns (p': Option<Id>, last': Id, rem': U16, ghost ids': seq<Id>)
      requires Valid() && free != {} && handles == was + HandleOf(p) && (p.None? || rem > 0) && cap > 0 && room > 0 &&
               first > 0
      requires Allocating(m0, free0, mem, free, p, ids, last, rem, cap, length, first, room)
      modifies this`mem, this`free, this`handles, this`rank
      ensures Valid() && Elements() == old(Elements()) && handles == was + HandleOf(p')
      ensures Allocating(m0, free0, mem, free, p', ids', last', rem', room, length, first, room)
      ensures StillNeeded(p', rem', room, room) < StillNeeded(p, rem, cap, room)
    {
      hide RefOk, Ranked, Building, Full, PbufsFor, HandleOf, Elements;
      PbufsForStep(rem, cap, room);
      BuildingHead(m0, free0, mem, free, p, ids, rem, length);
      var qlen := if rem <= cap then rem else cap;
      var q := GrowChain(p, last, rem, qlen, ids, m0, free0, length, was, first, room);
      p', last', rem', ids' := Started(p, q), q, rem - qlen, ids + [q];
    }

    /** The failure path of pbuf_alloc: free the chain allocated so far, if any. */
    method PutBack(p: Option<Id>, ghost ids: seq<Id>, ghost m0: Store, ghost free0: set<Id>, ghost was: multiset<Id>)
      requires Valid() && handles == was + HandleOf(p)
      requires Taken(m0, free0, mem, free, ids) && IsChain(mem, p, ids)
      modifies this`mem, this`free, this`handles
      ensures Valid() && handles == was + HandleOf(None) && mem == m0 && free == free0 && Elements() == old(Elements())
    {
      hide RefOk, Ranked, IsChain, Dropped, Unshared, HandleOf;
      TakenDropped(m0, free0, mem, free, p, ids);
      ChainNone(mem, p, ids);
      if p.Some? {
        HandleStarts(was, p.value);
        NoHandle(was);
        handles := was;
        var _ := DropRef(p.value, ids);
      }
      NoHandle(was);
      assert old(mem).Keys + old(free) == m0.Keys + free0;
      FreeAgain(m0, free0, mem, free);
    }

    /**
     pbuf_alloc of a PBUF_POOL pbuf: `first` bytes fit behind the header space of the first element and
     `room` bytes in each further one. It fails exactly when the pool has too few elements, and then it
     has put back every element it took.
     */
    method AllocPool(length: U16, first: nat, room: nat) returns (p: Option<Id>, ghost ids: seq<Id>)
      requires Valid() && first > 0 && room > 0
      modifies this
      ensures Valid() && Elements() == old(Elements()) && handles == old(handles) + HandleOf(p)
      ensures p.None? <==> |old(free)| < PbufsFor(length, first, room)
      ensures p.Some? <==> old(free) != {} && length <= first + (|old(free)| - 1) * room
      ensures p.None? ==> mem == old(mem) && free == old(free)
      ensures p.Some? ==>
                && |ids| == PbufsFor(length, first, room) && Taken(old(mem), old(free), mem, free, ids)
                && IsChain(mem, p, ids) && TotOk(mem, ids) && |Flat(mem, ids)| == length
                && Full(mem, ids, first, room, |ids| - 1)
    {
      hide *;
      var rem: U16, cap, last := length, first, 0;
      p, ids := None, [];
      AllocStarts(length, first, room);
      PbufsForExact(|free|, length, first, room);
      ghost var was := handles;
      while p.None? || rem > 0
        invariant Valid() && Elements() == old(Elements()) && handles == was + HandleOf(p) && cap > 0
        invariant Allocating(old(mem), old(free), mem, free, p, ids, last, rem, cap, length, first, room)
        decreases StillNeeded(p, rem, cap, room)
      {
        if free == {} {
          AllocFails(old(mem), old(free), mem, p, ids, last, rem, cap, length, first, room);
          PutBack(p, ids, old(mem), old(free), was);
          p := None;
          return;
        }
        p, last, rem, ids := AllocRound(p, last, rem, cap, ids, old(mem), old(free), length, was, first, room);
        cap := room;
      }
      AllocEnds(old(mem), old(free), mem, free, p, ids, last, cap, length, first, room);
    }
  }

  /** The assertion of pbuf_cat on the last pbuf of the chain `a`. */
  predicate CatHalts(m: Store, a: seq<Id>) {
    a != [] && a[|a| - 1] in m && m[a[|a| - 1]].totLen != |m[a[|a| - 1]].payload|
  }

  lemma CatStarts(m: Store, h: Id, t: Id, a: seq<Id>, b: seq<Id>)
    requires IsChain(m, Some(h), a) && IsChain(m, Some(t), b) && forall id :: id in a ==> id !in b
    ensures a != [] && a[0] == h && b != [] && b[0] == t && t in m && t !in a && a[|a| - 1] !in a[..|a| - 1]
    ensures (forall id :: id in a ==> id in m) && (forall id :: id in b ==> id in m)
  {
    ChainMembers(m, Some(h), a);
    ChainMembers(m, Some(t), b);
    ChainDistinct(m, Some(h), a);
    assert t in b;
  }

  predicate Joinable(m: Store, a: seq<Id>, t: Id) { a != [] && t in m && a[|a| - 1] in m }

  /** The store after pbuf_cat of the chain `a` with `t`. */
  function Joined(m: Store, a: seq<Id>, t: Id): Store
    requires Joinable(m, a, t)
  {
    var m1, last := AddTotals(m, a, m[t].totLen), a[|a| - 1];
    m1[last := m1[last].(next := Some(t))]
  }

  /** What pbuf_cat does to each pbuf. */
  lemma JoinedEffect(m: Store, a: seq<Id>, t: Id)
    requires Joinable(m, a, t)
    ensures var m' := Joined(m, a, t);
            && (forall x :: x in m && x !in a ==> x in m' && m'[x] == m[x])
            && (forall x :: x in m && x in a ==>
                  && x in m' && m'[x].totLen == (m[x].totLen + m[t].totLen) % 0x1_0000
                  && m'[x].ref == m[x].ref && m'[x].payload == m[x].payload
                  && m'[x].next == if x == a[|a| - 1] then Some(t) else m[x].next)
  {
  }

  lemma CatLinks(m: Store, handles: multiset<Id>, rank: map<Id, nat>, a: seq<Id>, b: seq<Id>, t: Id)
    requires RefOk(m, handles) && Ranked(m, rank) && t in handles && a != [] && t in m
    requires IsChain(m, Some(a[0]), a) && IsChain(m, Some(t), b)
    requires forall id :: id in a ==> id in m && id !in b
    ensures var m' := Joined(m, a, t);
            RefOk(m', handles - multiset{t}) && Ranked(m', Raised(rank, t, b)) && IsChain(m', Some(a[0]), a + b)
  {
    hide RefOk, Ranked, Raised;
    var last, m1, m' := a[|a| - 1], AddTotals(m, a, m[t].totLen), Joined(m, a, t);
    ChainDistinct(m, Some(a[0]), a);
    ChainSuffix(m, Some(a[0]), a, |a| - 1);
    ChainMembers(m, Some(t), b);
    AddTotalsKeeps(m, a, m[t].totLen, handles, rank);
    assert handles - multiset{t} + multiset{t} == handles;
    RefOkLink(m1, handles - multiset{t}, last, t);
    ChainFrame(m, m1, Some(t), b);
    RankedLink(m1, rank, last, t, b);
    ChainFrame(m, m', Some(t), b);
    ChainConcat(m, m', Some(a[0]), a, t, b);
  }

  lemma CatBytes(m: Store, a: seq<Id>, b: seq<Id>, t: Id)
    requires a != [] && t in m && b != [] && b[0] == t
    requires forall id :: id in a ==> id in m && id !in b
    requires forall id :: id in b ==> id in m
    ensures var m' := Joined(m, a, t);
            && Flat(m', a + b) == Flat(m, a) + Flat(m, b)
            && (TotOk(m, a) && TotOk(m, b) ==> (TotOk(m', a + b) <==> |Flat(m, a)| + |Flat(m, b)| <= 0xFFFF))
  {
    hide Add16;
    var m' := Joined(m, a, t);
    FlatFrame(m, m', a);
    FlatFrame(m, m', b);
    FlatConcat(m', a, b);
    if TotOk(m, a) && TotOk(m, b) { CatTotals(m, a, b, t); }
  }

  lemma CatTotals(m: Store, a: seq<Id>, b: seq<Id>, t: Id)
    requires a != [] && t in m && b != [] && b[0] == t && TotOk(m, a) && TotOk(m, b)
    requires forall id :: id in a ==> id in m && id !in b
    requires forall id :: id in b ==> id in m
    ensures TotOk(Joined(m, a, t), a + b) <==> |Flat(m, a)| + |Flat(m, b)| <= 0xFFFF
  {
    hide Add16;
    var m1, m' := AddTotals(m, a, m[t].totLen), Joined(m, a, t);
    TotFrame(m, m', b);
    TotConcat(m', a, b);
    AddTotalsTot(m, a, a, m[t].totLen);
    if TotBefore(m1, a, m[t].totLen) { TotBeforeFrame(m1, m', a, m[t].totLen); }
    if TotBefore(m', a, m[t].totLen) { TotBeforeFrame(m', m1, a, m[t].totLen); }
  }

  /** One more reference changes no link and no byte. */
  lemma RefKeepsBytes(m: Store, t: Id, x: Option<Id>, ids: seq<Id>)
    requires t in m && IsChain(m, x, ids) && m[t].ref < 255
    ensures var m' := m[t := m[t].(ref := m[t].ref + 1)];
            IsChain(m', x, ids) && Flat(m', ids) == Flat(m, ids) && (TotOk(m', ids) <==> TotOk(m, ids))
  {
    var m' := m[t := m[t].(ref := m[t].ref + 1)];
    ChainMembers(m, x, ids);
    ChainFrame(m, m', x, ids);
    TotSame(m, m', ids);
  }

  /** pbuf_cat leaves `t` itself alone. */
  lemma JoinedAt(m: Store, a: seq<Id>, t: Id, last: Id, b: seq<Id>)
    requires Joinable(m, a, t) && last == a[|a| - 1] && IsChain(m, Some(t), b) && forall id :: id in a ==> id !in b
    ensures t in Joined(m, a, t) && Joined(m, a, t)[t] == m[t]
  {
    ChainHead(m, t, b);
    assert t in b;
  }

  // ---------- Dechaining ----------

  /** The assertions of pbuf_dechain on the total of `p`. */
  predicate DechainHalts(m: Store, p: Id) {
    p in m && match m[p].next
              case None => m[p].totLen != |m[p].payload|
              case Some(q) => q in m && m[q].totLen != m[p].totLen - |m[p].payload|
  }

  /** `p` cut off from its successor. */
  function Detached(m: Store, p: Id): Store
    requires p in m
  {
    m[p := m[p].(next := None, totLen := |m[p].payload|)]
  }

  lemma DetachFacts(m: Store, handles: multiset<Id>, rank: map<Id, nat>, p: Id, ids: seq<Id>)
    requires RefOk(m, handles) && Ranked(m, rank) && IsChain(m, Some(p), ids)
    ensures var m1, tail := Detached(m, p), ids[1..];
            && RefOk(m1, handles + HandleOf(m[p].next)) && Ranked(m1, rank)
            && m[p].next == (if tail == [] then None else Some(tail[0]))
            && IsChain(m, m[p].next, tail) && IsChain(m1, m[p].next, tail) && p !in tail
            && Unshared(m1, tail) == Unshared(m, tail)
            && (tail != [] ==> tail[0] in m)
  {
    hide RefOk, Ranked;
    var m1, tail := Detached(m, p), ids[1..];
    var m' := m[p := m[p].(next := None)];
    RefOkUnlink(m, handles, p);
    assert SameLinks(m', m1);
    RefOkSameLinks(m', m1, handles + HandleOf(m[p].next));
    RankedFewer(m, m1, rank);
    ChainMembers(m, Some(p), ids);
    ChainDistinct(m, Some(p), ids);
    ChainFrame(m, m1, m[p].next, tail);
    UnsharedFrame(m, m1, tail);
  }

  /** Dropping the tail's reference does not touch `p`, and not the tail either if it is shared. */
  lemma DetachResult(m: Store, handles: multiset<Id>, p: Id, ids: seq<Id>)
    requires RefOk(m, handles) && IsChain(m, Some(p), ids)
    ensures var m', tail := Dropped(Detached(m, p), ids[1..]), ids[1..];
            && IsChain(m', Some(p), [p]) && TotOk(m', [p]) && Flat(m', [p]) == m[p].payload
            && (Unshared(m, tail) == 0 ==> IsChain(m', m[p].next, tail) && Flat(m', tail) == Flat(m, tail))
            && (Unshared(m, tail) == 0 ==> (TotOk(m', tail) <==> TotOk(m, tail)))
            && (if tail == [] then Unshared(m, tail) == 0 else tail[0] in m' <==> Unshared(m, tail) == 0)
  {
    var m1, tail := Detached(m, p), ids[1..];
    ChainMembers(m, Some(p), ids);
    ChainDistinct(m, Some(p), ids);
    LiveCounts(m, handles);
    DroppedEffect(m1, tail);
    UnsharedFrame(m, m1, tail);
    var m' := Dropped(m1, tail);
    assert p !in tail;
    assert m'[p] == m1[p];
    assert [p][1..] == [] && Flat(m', [p]) == m[p].payload + Flat(m', []);
    if Unshared(m, tail) == 0 {
      ChainFrame(m, m', m[p].next, tail);
      TotSame(m, m', tail);
    }
  }

  lemma DetachAlone(m: Store, p: Id, ids: seq<Id>)
    requires IsChain(m, Some(p), ids) && m[p].next.None? && m[p].totLen == |m[p].payload|
    ensures ids[1..] == [] && Dropped(Detached(m, p), ids[1..]) == m
  {
  }

  /** On a chain with right totals no assertion fails. */
  lemma {:induction false} RightTotalsReturn(m: Store, p: Id, ids: seq<Id>)
    requires IsChain(m, Some(p), ids) && TotOk(m, ids)
    ensures !CatHalts(m, ids) && !DechainHalts(m, p) && m[p].totLen == |Flat(m, ids)|
  {
    ChainSuffix(m, Some(p), ids, |ids| - 1);
    TotAt(m, ids, |ids| - 1);
    assert ids[|ids| - 1..] == [ids[|ids| - 1]];
    Single(m, ids[|ids| - 1]);
    ChainSuffix(m, Some(p), ids, 0);
    if |ids| > 1 { TotAt(m, ids, 1); } else { Single(m, p); }
  }

  // ---------- Shortening ----------

  lemma FlatNothing(m: Store, ids: seq<Id>)
    ensures Flat(m, ids[..0]) == [] && ids[0..] == ids
  {
  }

  lemma FlatEmpty(m: Store, ids: seq<Id>)
    ensures |ids| == 0 ==> |Flat(m, ids)| == 0
  {
  }

  /** A step over a pbuf that stays whole: the chain ends here exactly when it is too short. */
  lemma CutStep(m: Store, ids: seq<Id>, k: nat, rem: nat)
    requires k < |ids| && ids[k] in m && rem > |m[ids[k]].payload|
    ensures |Flat(m, ids[..k + 1])| == |Flat(m, ids[..k])| + |m[ids[k]].payload|
    ensures k + 1 == |ids| ==> rem + |Flat(m, ids[..k])| > |Flat(m, ids)|
    ensures k + 1 < |ids| ==>
              KeepIndex(m, ids[k..], rem) == 1 + KeepIndex(m, ids[k + 1..], rem - |m[ids[k]].payload|)
  {
    FlatSplit(m, ids, k);
    assert ids[..k + 1] == ids[..k] + [ids[k]];
    FlatConcat(m, ids[..k], [ids[k]]);
    Single(m, ids[k]);
    assert ids[k..][1..] == ids[k + 1..];
    FlatEmpty(m, ids[k + 1..]);
  }

  lemma CutEnds(m: Store, ids: seq<Id>, k: nat, rem: nat)
    requires k < |ids| && ids[k] in m && rem <= |m[ids[k]].payload|
    ensures KeepIndex(m, ids[k..], rem) == 0 && rem + |Flat(m, ids[..k])| <= |Flat(m, ids)|
  {
    FlatSplit(m, ids, k);
  }

  lemma TotHead(m: Store, p: Id, ids: seq<Id>)
    requires IsChain(m, Some(p), ids) && TotOk(m, ids)
    ensures p in m && m[p].totLen == |Flat(m, ids)|
  {
  }

  /** Dropping what was cut off leaves the shortened chain as it is. */
  lemma ShortenedDrop(m: Store, handles: multiset<Id>, rank: map<Id, nat>, p: Id, ids: seq<Id>, k: nat, r: nat, s: U16)
    requires RefOk(m, handles) && Ranked(m, rank) && IsChain(m, Some(p), ids) && k < |ids| && ids[k] in m
    requires r <= |m[ids[k]].payload|
    ensures var m1, kept, tail := Shortened(m, ids, k, r, s), ids[..k + 1], ids[k + 1..];
            var m' := Dropped(m1, tail);
            && IsChain(m', Some(p), kept) && Flat(m', kept) == Flat(m1, kept) && (TotOk(m', kept) <==> TotOk(m1, kept))
            && m[ids[k]].next == (if tail == [] then None else Some(tail[0]))
            && (tail == [] ==> m' == m1)
  {
    hide RefOk, Ranked, Shortened;
    ShortenedLinks(m, handles, rank, Some(p), ids, k, r, s);
    ChainSuffix(m, Some(p), ids, k);
    ChainDistinct(m, Some(p), ids);
    var m1, kept, tail := Shortened(m, ids, k, r, s), ids[..k + 1], ids[k + 1..];
    forall id | id in kept ensures id !in tail {
      var i :| 0 <= i <= k && ids[i] == id;
    }
    DroppedElsewhere(m1, handles + HandleOf(m[ids[k]].next), m[ids[k]].next, tail, Some(p), kept);
  }

  // ---------- Removing a header ----------

  /**
   The loop of pbuf_free_header: `k` pbufs are gone and `left` bytes are still to go from the rest, or
   the rest has been cut to what remains.
   */
  ghost predicate HeaderIn(m0: Store, m: Store, ids: seq<Id>, k: nat, size: nat, left: nat) {
    && k <= |ids| && left <= size
    && IsChain(m, HeadFrom(ids, k), ids[k..]) && (TotOk(m0, ids) ==> TotOk(m, ids[k..]))
    && HeaderIndex(m0, ids, size) == k + HeaderIndex(m0, ids[k..], left)
    && Tail(Flat(m, ids[k..]), left) == Tail(Flat(m0, ids), size)
    && (left > 0 ==> forall x :: x in ids[k..] ==> Unchanged(m0, m, x))
  }

  /** The pbufs while a header goes: `k` are off the chain, and the next one has lost `n` bytes. */
  ghost predicate HeaderNodes(m0: Store, m: Store, ids: seq<Id>, k: nat, n: nat) {
    && k <= |ids| && (forall i :: 0 <= i < k ==> Unlinked(m0, m, ids[i]))
    && (forall i :: k < i < |ids| ==> Unchanged(m0, m, ids[i]))
    && (k < |ids| ==> HeadCut(m0, m, ids[k], n))
    && (forall x :: x in m0 && x !in ids ==> Unchanged(m0, m, x))
  }

  predicate Unchanged(m0: Store, m: Store, x: Id) { x in m0 && x in m && m[x] == m0[x] }

  /** A pbuf that has lost its next pointer and one reference; it is gone if that was the last. */
  predicate Unlinked(m0: Store, m: Store, x: Id) {
    x in m0 && if m0[x].ref <= 1 then x !in m
               else x in m && m[x] == m0[x].(next := None, ref := m0[x].ref - 1)
  }

  /** The pbuf with `n` bytes off its front. */
  predicate HeadCut(m0: Store, m: Store, x: Id, n: int) {
    && x in m0 && x in m && 0 <= n <= |m0[x].payload|
    && m[x] == m0[x].(payload := m0[x].payload[n..], totLen := Add16(m0[x].totLen, Neg16(n)))
  }

  function HeadFrom(ids: seq<Id>, k: nat): Option<Id> { if k < |ids| then Some(ids[k]) else None }

  /** What is left of `bs` after `n` bytes. */
  function Tail(bs: seq<Byte>, n: nat): seq<Byte> { bs[if n <= |bs| then n else |bs|..] }

  lemma HeaderStart(m: Store, q: Id, ids: seq<Id>, size: nat)
    requires IsChain(m, Some(q), ids)
    ensures HeaderIn(m, m, ids, 0, size, size) && ids != [] && ids[0] == q
  {
    assert ids[0..] == ids;
    ChainMembers(m, Some(q), ids);
  }

  lemma HeaderHead(m0: Store, m: Store, ids: seq<Id>, k: nat, size: nat, left: nat)
    requires HeaderIn(m0, m, ids, k, size, left) && k < |ids|
    ensures IsChain(m, Some(ids[k]), ids[k..]) && ids[k] in m && (left > 0 ==> Unchanged(m0, m, ids[k]))
  {
    assert ids[k..][0] == ids[k] && ids[k] in ids[k..];
  }

  /** A pbuf that the header covers goes whole. */
  lemma HeaderPop(m0: Store, m: Store, handles: multiset<Id>, ids: seq<Id>, k: nat, size: nat, left: nat)
    requires RefOk(m, handles) && HeaderIn(m0, m, ids, k, size, left) && k < |ids| && left > 0
    requires ids[k] in m && left >= |m[ids[k]].payload|
    ensures HeaderIn(m0, Popped(m, ids[k]), ids, k + 1, size, left - |m[ids[k]].payload|)
    ensures m[ids[k]].next == HeadFrom(ids, k + 1)
  {
    hide RefOk, Popped, Flat, TotOk;
    var f, cur := ids[k], ids[k..];
    PopBytes(m, handles, f, cur);
    ChainDistinct(m, Some(f), cur);
    assert cur[0] == f && cur[1..] == ids[k + 1..];
    assert f in cur && Unchanged(m0, m, f);
    assert f !in ids[k + 1..];
    forall x | x in ids[k + 1..] ensures Unchanged(m0, Popped(m, f), x) { assert x in cur && Unchanged(m0, m, x); }
    if TotOk(m, cur) { TotAt(m, cur, 1); }
  }

  /** A pbuf that the header ends in is cut. */
  lemma HeaderTrim(m0: Store, m: Store, handles: multiset<Id>, rank: map<Id, nat>, ids: seq<Id>, k: nat, size: nat,
                   left: U16)
    requires RefOk(m, handles) && Ranked(m, rank) && HeaderIn(m0, m, ids, k, size, left) && k < |ids| && left > 0
    requires ids[k] in m && left < |m[ids[k]].payload|
    ensures HeaderIn(m0, Trimmed(m, ids[k], left), ids, k, size, 0)
  {
    hide RefOk, Ranked, Flat, TotOk;
    var f, cur := ids[k], ids[k..];
    TrimKeeps(m, handles, rank, f, cur, left);
    assert cur[0] == f && f in cur && Unchanged(m0, m, f) && f in ids;
    HeadLength(m, cur);
  }

  lemma CutNothing(m0: Store, m: Store, x: Id)
    ensures HeadCut(m0, m, x, 0) <==> Unchanged(m0, m, x)
  {
    assert x in m0 ==> m0[x].payload[0..] == m0[x].payload;
    assert x in m0 ==> Add16(m0[x].totLen, Neg16(0)) == m0[x].totLen;
  }

  lemma NodesStart(m: Store, q: Id, ids: seq<Id>)
    requires IsChain(m, Some(q), ids)
    ensures HeaderNodes(m, m, ids, 0, 0)
  {
    hide HeadCut;
    ChainMembers(m, Some(q), ids);
    ChainHead(m, q, ids);
    CutNothing(m, m, q);
  }

  lemma NodesPop(m0: Store, m: Store, ids: seq<Id>, k: nat)
    requires HeaderNodes(m0, m, ids, k, 0) && k < |ids| && ids[k] in m
    requires forall i, j :: 0 <= i < j < |ids| ==> ids[i] != ids[j]
    ensures HeaderNodes(m0, Popped(m, ids[k]), ids, k + 1, 0)
  {
    hide HeadCut, Dropped;
    var f, m' := ids[k], Popped(m, ids[k]);
    CutNothing(m0, m, f);
    DroppedOne(m[f := m[f].(next := None)], f);
    assert forall z :: z != f ==> (z in m <==> z in m') && (z in m ==> m'[z] == m[z]);
    if k + 1 < |ids| { CutNothing(m0, m', ids[k + 1]); }
  }

  lemma NodesTrim(m0: Store, m: Store, ids: seq<Id>, k: nat, n: U16)
    requires HeaderNodes(m0, m, ids, k, 0) && k < |ids| && ids[k] in m && n <= |m[ids[k]].payload|
    requires forall i, j :: 0 <= i < j < |ids| ==> ids[i] != ids[j]
    ensures HeaderNodes(m0, Trimmed(m, ids[k], n), ids, k, n)
  {
    hide Add16, Neg16;
    CutNothing(m0, m, ids[k]);
  }

  lemma NodesEnd(m0: Store, m: Store, ids: seq<Id>, k: nat, n: nat, left: nat)
    requires HeaderNodes(m0, m, ids, k, n) && (left == 0 || k == |ids|)
    ensures HeaderNodes(m0, m, ids, k, n + left)
  {
  }

  lemma FlatNext(m: Store, ids: seq<Id>, k: nat)
    requires k < |ids| && ids[k] in m
    ensures |Flat(m, ids[..k + 1])| == |Flat(m, ids[..k])| + |m[ids[k]].payload|
  {
    assert ids[..k + 1] == ids[..k] + [ids[k]];
    FlatConcat(m, ids[..k], [ids[k]]);
    Single(m, ids[k]);
  }

  lemma HeadLength(m: Store, ids: seq<Id>)
    requires ids != [] && ids[0] in m
    ensures |m[ids[0]].payload| <= |Flat(m, ids)|
  {
  }

  lemma HeaderEnd(m0: Store, m: Store, ids: seq<Id>, k: nat, size: nat, left: nat)
    requires HeaderIn(m0, m, ids, k, size, left) && (left == 0 || k == |ids|)
    ensures k == HeaderIndex(m0, ids, size) && Flat(m, ids[k..]) == Tail(Flat(m0, ids), size)
    ensures IsChain(m, HeadFrom(ids, k), ids[k..]) && (TotOk(m0, ids) ==> TotOk(m, ids[k..]))
  {
    assert k == |ids| ==> ids[k..] == [];
  }

  lemma HandleSplit(handles: multiset<Id>, q: Id)
    requires q in handles
    ensures handles - multiset{q} + HandleOf(Some(q)) == handles
  {
  }

  // ---------- Allocation ----------

  lemma FlatNone(m: Store, ids: seq<Id>)
    ensures ids == [] ==> Flat(m, ids) == []
  {
  }

  lemma ChainNone(m: Store, x: Option<Id>, ids: seq<Id>)
    requires IsChain(m, x, ids)
    ensures x.None? <==> ids == []
  {
  }

  lemma RankedAlloc(m: Store, rank: map<Id, nat>, q: Id, p: PbufStore.Pbuf)
    requires Ranked(m, rank) && Closed(m) && q !in m && p.next.None?
    ensures Ranked(m[q := p], rank[q := 0])
  {
    var m' := m[q := p];
    forall x | x in m' ensures RankOk(m', rank[q := 0], x) {
      if x != q { assert RankOk(m, rank, x) && NextLive(m, x); }
    }
  }

  /** Linking a fresh pbuf uses up its handle. */
  lemma LinkFresh(m: Store, handles: multiset<Id>, rank: map<Id, nat>, last: Id, q: Id)
    requires RefOk(m, handles + multiset{q}) && Ranked(m, rank) && last in m && last != q && m[last].next.None?
    requires q in m && m[q].next.None?
    ensures var m' := m[last := m[last].(next := Some(q))];
            RefOk(m', handles) && Ranked(m', Raised(rank, q, [q]))
  {
    assert [q][1..] == [];
    RefOkLink(m, handles, last, q);
    RankedLink(m, rank, last, q, [q]);
  }

  /** pbuf_alloc has built the chain `ids` for the first `length - rem` bytes. */
  ghost predicate Building(m0: Store, free0: set<Id>, m: Store, free: set<Id>, p: Option<Id>, ids: seq<Id>,
                           rem: nat, length: nat)
  {
    && Taken(m0, free0, m, free, ids) && IsChain(m, p, ids) && (p.None? <==> ids == [])
    && TotBefore(m, ids, rem) && |Flat(m, ids)| + rem == length
  }

  /** What fits into the `i`-th pbuf, and what goes into it with `rem` bytes to come. */
  function Cap(i: nat, first: nat, room: nat): nat { if i == 0 then first else room }
  function Filling(rem: nat, i: nat, first: nat, room: nat): (n: nat)
    ensures n <= rem
  {
    if rem <= Cap(i, first, room) then rem else Cap(i, first, room)
  }

  /** The first `n` pbufs are filled up. */
  ghost predicate Full(m: Store, ids: seq<Id>, first: nat, room: nat, n: int) {
    n <= |ids| && forall i :: 0 <= i < n ==> |PayloadOf(m, ids[i])| == Cap(i, first, room)
  }

  /** How many pbufs pbuf_alloc has yet to take. */
  function StillNeeded(p: Option<Id>, rem: nat, cap: nat, room: nat): nat
    requires cap > 0 && room > 0
  {
    if p.None? || rem > 0 then PbufsFor(rem, cap, room) else 0
  }

  /** The loop of pbuf_alloc: a chain up to `last` is built and filled up, and `rem` bytes are to come. */
  ghost predicate Allocating(m0: Store, free0: set<Id>, m: Store, free: set<Id>, p: Option<Id>, ids: seq<Id>, last: Id,
                             rem: nat, cap: nat, length: nat, first: nat, room: nat)
  {
    && cap > 0 && room > 0 && first > 0 && Building(m0, free0, m, free, p, ids, rem, length)
    && cap == Cap(|ids|, first, room) && (ids != [] ==> last == ids[|ids| - 1])
    && Full(m, ids, first, room, if p.None? || rem > 0 then |ids| else |ids| - 1)
    && |ids| + StillNeeded(p, rem, cap, room) == PbufsFor(length, first, room)
  }

  lemma AllocFails(m0: Store, free0: set<Id>, m: Store, p: Option<Id>, ids: seq<Id>, last: Id,
                   rem: nat, cap: nat, length: nat, first: nat, room: nat)
    requires Allocating(m0, free0, m, {}, p, ids, last, rem, cap, length, first, room) && (p.None? || rem > 0)
    ensures first > 0 && room > 0 && |free0| < PbufsFor(length, first, room)
    ensures Taken(m0, free0, m, {}, ids) && IsChain(m, p, ids)
  {
    hide PbufsFor;
    BuildingCard(m0, free0, m, {}, p, ids, rem, length);
    PbufsForStep(rem, cap, room);
  }

  lemma AllocEnds(m0: Store, free0: set<Id>, m: Store, free: set<Id>, p: Option<Id>, ids: seq<Id>, last: Id,
                  cap: nat, length: nat, first: nat, room: nat)
    requires Allocating(m0, free0, m, free, p, ids, last, 0, cap, length, first, room) && p.Some?
    ensures first > 0 && room > 0 && |free0| >= PbufsFor(length, first, room) == |ids|
    ensures Taken(m0, free0, m, free, ids) && IsChain(m, p, ids) && TotOk(m, ids) && |Flat(m, ids)| == length
    ensures Full(m, ids, first, room, |ids| - 1)
  {
    hide PbufsFor, Full, Building;
    BuildingEnds(m0, free0, m, free, p, ids, length);
  }

  lemma BuildingHead(m0: Store, free0: set<Id>, m: Store, free: set<Id>, p: Option<Id>, ids: seq<Id>, rem: nat,
                     length: nat)
    requires Building(m0, free0, m, free, p, ids, rem, length)
    ensures p.None? <==> ids == []
  {
  }

  lemma FullGrows(m: Store, m': Store, ids: seq<Id>, q: Id, rem: nat, first: nat, room: nat)
    requires Full(m, ids, first, room, |ids|) && forall id :: id in ids ==> PayloadOf(m', id) == PayloadOf(m, id)
    requires |PayloadOf(m', q)| == Filling(rem, |ids|, first, room)
    ensures Full(m', ids + [q], first, room, if rem > Filling(rem, |ids|, first, room) then |ids| + 1 else |ids|)
  {
  }

  lemma BuildingStarts(m: Store, free: set<Id>, length: nat)
    requires m.Keys !! free
    ensures Building(m, free, m, free, None, [], length, length)
  {
    TakenStart(m, free);
  }

  lemma BuildingCard(m0: Store, free0: set<Id>, m: Store, free: set<Id>, p: Option<Id>, ids: seq<Id>, rem: nat,
                     length: nat)
    requires Building(m0, free0, m, free, p, ids, rem, length)
    ensures |free0| == |ids| + |free| && Taken(m0, free0, m, free, ids) && IsChain(m, p, ids) &&
            (p.None? <==> ids == [])
  {
    TakenCard(m0, free0, m, free, p, ids);
  }

  lemma BuildingEnds(m0: Store, free0: set<Id>, m: Store, free: set<Id>, p: Option<Id>, ids: seq<Id>, length: nat)
    requires Building(m0, free0, m, free, p, ids, 0, length)
    ensures |free0| == |ids| + |free| && Taken(m0, free0, m, free, ids) && IsChain(m, p, ids)
    ensures TotOk(m, ids) && |Flat(m, ids)| == length
  {
    TakenCard(m0, free0, m, free, p, ids);
    TotBeforeNothing(m, ids);
  }

  lemma PbufsForStep(n: nat, cap: nat, room: nat)
    requires cap > 0 && room > 0
    ensures PbufsFor(n, cap, room) >= 1 && (n <= cap ==> PbufsFor(n, cap, room) == 1)
    ensures n > cap ==> PbufsFor(n, cap, room) == 1 + PbufsFor(n - cap, room, room)
  {
  }

  /** With the store back as it was, so is the free part of the pool. */
  lemma FreeAgain(m0: Store, free0: set<Id>, m: Store, free: set<Id>)
    requires m0.Keys !! free0 && m == m0 && m.Keys !! free && m.Keys + free == m0.Keys + free0
    ensures free == free0
  {
  }

  lemma NoHandle(handles: multiset<Id>)
    ensures handles + HandleOf(None) == handles
  {
  }

  lemma HandleStarts(handles: multiset<Id>, q: Id)
    ensures handles + HandleOf(None) + multiset{q} == handles + HandleOf(Some(q))
  {
  }

  /** The head of a chain that `q` is appended to. */
  function Started(head: Option<Id>, q: Id): (p: Option<Id>)
    ensures p.Some?
  {
    if head.None? then Some(q) else head
  }
}
