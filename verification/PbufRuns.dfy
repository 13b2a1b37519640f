/**
 Runs of the pbuf operations by a client that keeps the pointers it holds in a list. A call that
 the client may not make is not made: one on a pbuf that is not live, one that gives up a pointer it
 does not hold, or one that would close a circle.
 */
module PbufRuns {
  import opened Machine
  import opened PbufStore
  import opened Pbuf

  /** A call on any pbuf `p` or `h`; calls that give up a pointer name its position in the client's list. */
  datatype Call =
    | Alloc(length: U16) | Ref(p: Id) | Free(i: nat) | Cat(h: Id, i: nat) | Chain(h: Id, i: nat)
    | Dechain(p: Id) | Realloc(p: Id, length: U16) | FreeHeader(i: nat, size: U16)

  /** The pool and the pointers that the client holds. */
  datatype State = State(mem: Store, free: set<Id>, held: seq<Id>)

  ghost function StateOf(pool: PbufPool, held: seq<Id>): State
    reads pool
  {
    State(pool.mem, pool.free, held)
  }

  function Without(held: seq<Id>, i: nat): seq<Id>
    requires i < |held|
  {
    held[..i] + held[i + 1..]
  }

  lemma WithoutIs(held: seq<Id>, i: nat)
    requires i < |held|
    ensures Without(held, i) == held[..i] + held[i + 1..]
  {
  }

  lemma WithoutHandles(held: seq<Id>, i: nat, p: Option<Id>)
    requires i < |held|
    ensures multiset(Without(held, i)) == multiset(held) - multiset{held[i]} && |Without(held, i)| < |held|
    ensures multiset(Without(held, i) + Kept(p)) == multiset(held) - multiset{held[i]} + HandleOf(p)
  {
    assert held == held[..i] + [held[i]] + held[i + 1..];
  }

  function Kept(p: Option<Id>): seq<Id> { if p.Some? then [p.value] else [] }

  lemma KeptHandles(held: seq<Id>, p: Option<Id>)
    ensures multiset(held + Kept(p)) == multiset(held) + HandleOf(p)
  {
  }

  lemma HeldLive(m: Store, held: seq<Id>)
    requires RefOk(m, multiset(held))
    ensures forall x :: x in held ==> x in m && x in multiset(held)
  {
    forall x | x in held ensures x in m { assert x in multiset(held); }
  }

  /** The chain from `p`. */
  ghost function ChainFrom(m: Store, p: Id): (ids: seq<Id>)
    ensures ids != [] ==> IsChain(m, Some(p), ids)
  {
    if exists ids :: IsChain(m, Some(p), ids) then var ids :| IsChain(m, Some(p), ids); ids else []
  }

  lemma ChainIs(m: Store, p: Id, ids: seq<Id>)
    requires IsChain(m, Some(p), ids)
    ensures ChainFrom(m, p) == ids && ids != [] && ids[0] == p && p in m
  {
    ChainUnique(m, Some(p), ChainFrom(m, p), ids);
  }

  /** The chain from `p`, by following next pointers. */
  method Walk(pool: PbufPool, p: Id) returns (ids: seq<Id>)
    requires pool.Valid() && p in pool.mem
    ensures ids == pool.Chain(p)
  {
    hide RefOk, Ranked;
    ghost var all := pool.Chain(p);
    var q := Some(p);
    ids := [];
    assert all[0..] == all;
    while q.Some?
      invariant |ids| <= |all| && ids == all[..|ids|] && IsChain(pool.mem, q, all[|ids|..])
      decreases |all| - |ids|
    {
      assert all[|ids|..][1..] == all[|ids| + 1..];
      q, ids := pool.mem[q.value].next, ids + [q.value];
    }
  }

  predicate Disjoint(a: seq<Id>, b: seq<Id>) { forall id :: id in a ==> id !in b }

  // ---------- What a call does ----------

  /** The client may append the `i`-th of its pointers to the chain from `h`. */
  ghost predicate Appends(s: State, h: Id, i: nat) {
    h in s.mem && i < |s.held| && s.held[i] in s.mem && Disjoint(ChainFrom(s.mem, h), ChainFrom(s.mem, s.held[i]))
  }

  /** The calls that the client makes; it leaves out the others. */
  ghost predicate Made(s: State, call: Call) {
    match call
    case Alloc(_) => true
    case Ref(p) => p in s.mem
    case Free(i) => i < |s.held|
    case Cat(h, i) => Appends(s, h, i)
    case Chain(h, i) => Appends(s, h, i)
    case Dechain(p) => p in s.mem
    case Realloc(p, _) => p in s.mem
    case FreeHeader(i, _) => i < |s.held|
  }

  /** Exactly the calls that fail an assertion. */
  ghost predicate Halts(s: State, call: Call) {
    Made(s, call) &&
    match call
    case Ref(p) => s.mem[p].ref == 255
    case Cat(h, i) => CatHalts(s.mem, ChainFrom(s.mem, h))
    case Chain(h, i) => CatHalts(s.mem, ChainFrom(s.mem, h)) || s.mem[s.held[i]].ref == 255
    case Dechain(p) => DechainHalts(s.mem, p)
    case Realloc(p, n) => |Flat(s.mem, ChainFrom(s.mem, p))| < n < s.mem[p].totLen
    case _ => false
  }

  /** pbuf_alloc: a fresh chain `ids`, filled up and with right totals. */
  ghost predicate AllocStep(s: State, s': State, n: U16, first: nat, room: nat, ids: seq<Id>)
    requires first > 0 && room > 0
  {
    && ids != [] && |ids| == PbufsFor(n, first, room) && Taken(s.mem, s.free, s'.mem, s'.free, ids)
    && IsChain(s'.mem, Some(ids[0]), ids) && TotOk(s'.mem, ids) && |Flat(s'.mem, ids)| == n
    && Full(s'.mem, ids, first, room, |ids| - 1) && s'.held == s.held + [ids[0]]
  }

  ghost predicate CatStep(s: State, s': State, h: Id, t: Id) {
    var a := ChainFrom(s.mem, h);
    Joinable(s.mem, a, t) && s'.mem == Joined(s.mem, a, t)
  }

  ghost predicate ChainStep(s: State, s': State, h: Id, t: Id) {
    var a := ChainFrom(s.mem, h);
    && Joinable(s.mem, a, t) && s.mem[t].ref < 255
    && s'.mem == Joined(s.mem, a, t)[t := s.mem[t].(ref := s.mem[t].ref + 1)]
  }

  ghost predicate DechainStep(s: State, s': State, p: Id) {
    var ids := ChainFrom(s.mem, p);
    p in s.mem && ids != [] && s'.mem == Dropped(Detached(s.mem, p), ids[1..])
  }

  ghost predicate ReallocStep(s: State, s': State, p: Id, n: U16) {
    var m, ids := s.mem, ChainFrom(s.mem, p);
    && p in m && ids != []
    && if n >= m[p].totLen then s'.mem == m
       else
         var k := KeepIndex(m, ids, n);
         var r := n - |Flat(m, ids[..k])|;
         && ids[k] in m && 0 <= r <= |m[ids[k]].payload|
         && s'.mem == Dropped(Shortened(m, ids, k, r, m[p].totLen - n), ids[k + 1..])
  }

  ghost predicate HeaderStep(s: State, s': State, i: nat, n: U16)
    requires i < |s.held|
  {
    var ids := ChainFrom(s.mem, s.held[i]);
    var k := HeaderIndex(s.mem, ids, n);
    && s'.held == Without(s.held, i) + Kept(HeadFrom(ids, k))
    && n >= |Flat(s.mem, ids[..k])| && HeaderNodes(s.mem, s'.mem, ids, k, n - |Flat(s.mem, ids[..k])|)
  }

  /** What a call that returns makes of the pool and of the client's list. */
  ghost predicate Stepped(s: State, call: Call, s': State, first: nat, room: nat)
    requires first > 0 && room > 0
  {
    if !Made(s, call) then s' == s else
    match call
    case Alloc(n) =>
      if |s.free| < PbufsFor(n, first, room) then s' == s
      else exists ids :: AllocStep(s, s', n, first, room, ids)
    case Ref(p) =>
      s.mem[p].ref < 255 && s' == s.(mem := s.mem[p := s.mem[p].(ref := s.mem[p].ref + 1)], held := s.held + [p])
    case Free(i) => s'.mem == Dropped(s.mem, ChainFrom(s.mem, s.held[i])) && s'.held == Without(s.held, i)
    case Cat(h, i) => CatStep(s, s', h, s.held[i]) && s'.held == Without(s.held, i)
    case Chain(h, i) => ChainStep(s, s', h, s.held[i]) && s'.held == s.held
    case Dechain(p) => DechainStep(s, s', p) && s'.held == s.held
    case Realloc(p, n) => ReallocStep(s, s', p, n) && s'.held == s.held
    case FreeHeader(i, n) => HeaderStep(s, s', i, n)
  }

  // ---------- What the client sees of it ----------

  /** The bytes behind a pointer. */
  ghost function BytesFrom(m: Store, p: Id): seq<Byte> { Flat(m, ChainFrom(m, p)) }

  ghost predicate BytesKept(m: Store, m': Store, p: Id) {
    p in m && p in m' && BytesFrom(m', p) == BytesFrom(m, p)
  }

  /**
   The same in bytes: what a call does to those behind the pointers it names, and whom it leaves alone.
   Freeing one pointer changes nothing behind any other.
   */
  ghost predicate BytesStepped(s: State, call: Call, s': State) {
    if !Made(s, call) then s' == s else
    match call
    case Alloc(n) =>
      && (forall x :: x in s.mem ==> BytesKept(s.mem, s'.mem, x))
      && (s' == s || exists p :: s'.held == s.held + [p] && p !in s.mem && |BytesFrom(s'.mem, p)| == n)
    case Ref(p) => s'.held == s.held + [p] && forall x :: x in s.mem ==> BytesKept(s.mem, s'.mem, x)
    case Free(i) =>
      s'.held == s.held[..i] + s.held[i + 1..] && forall x :: x in s'.mem ==> BytesKept(s.mem, s'.mem, x)
    case Cat(h, i) => s'.held == s.held[..i] + s.held[i + 1..] && Appended(s.mem, s'.mem, h, s.held[i])
    case Chain(h, i) => s'.held == s.held && Appended(s.mem, s'.mem, h, s.held[i])
    case Dechain(p) => s'.held == s.held && BytesFrom(s'.mem, p) == s.mem[p].payload
    case Realloc(p, n) =>
      && s'.held == s.held
      && var bs := BytesFrom(s.mem, p);
         if n < s.mem[p].totLen then n <= |bs| && BytesFrom(s'.mem, p) == bs[..n] else s' == s
    case FreeHeader(i, n) =>
      var bs, others := BytesFrom(s.mem, s.held[i]), s.held[..i] + s.held[i + 1..];
      if s'.held == others then |bs| <= n
      else exists p :: s'.held == others + [p] && BytesFrom(s'.mem, p) == bs[if n <= |bs| then n else |bs|..]
  }

  lemma NotMade(s: State, call: Call)
    ensures !Made(s, call) ==> BytesStepped(s, call, s)
  {
  }

  ghost predicate Appended(m: Store, m': Store, h: Id, t: Id) {
    BytesFrom(m', h) == BytesFrom(m, h) + BytesFrom(m, t) && BytesKept(m, m', t)
  }

  predicate SameNode(m: Store, m': Store, id: Id)
    requires id in m
  {
    id in m' && m'[id].next == m[id].next && m'[id].payload == m[id].payload
  }

  lemma SameBytes(m: Store, m': Store, x: Id, c: seq<Id>)
    requires IsChain(m, Some(x), c)
    requires forall id :: id in c && id in m ==> SameNode(m, m', id)
    ensures x in m && x in m' && BytesFrom(m, x) == Flat(m, c) == BytesFrom(m', x)
  {
    ChainMembers(m, Some(x), c);
    ChainFrame(m, m', Some(x), c);
    FlatFrame(m, m', c);
    ChainIs(m, x, c);
    ChainIs(m', x, c);
  }

  /** Where nothing but counters changes and pbufs go, what stays has its bytes. */
  lemma DropKeepsBytes(m: Store, handles: multiset<Id>, ids: seq<Id>, p: Id, x: Id, c: seq<Id>)
    requires RefOk(m, handles) && IsChain(m, Some(p), ids) && IsChain(Dropped(m, ids), Some(x), c)
    ensures BytesKept(m, Dropped(m, ids), x)
  {
    hide RefOk, Dropped;
    ChainMembers(m, Some(p), ids);
    ChainDistinct(m, Some(p), ids);
    LiveCounts(m, handles);
    DroppedEffect(m, ids);
    SameBytes(Dropped(m, ids), m, x, c);
  }

  lemma TakenFresh(m0: Store, free0: set<Id>, m: Store, free: set<Id>, ids: seq<Id>, p: Id)
    requires Taken(m0, free0, m, free, ids) && p in ids
    ensures p !in m0
  {
    assert p in SetOf(ids);
  }

  lemma TakenKeepsBytes(m0: Store, free0: set<Id>, m: Store, free: set<Id>, ids: seq<Id>, x: Id, c: seq<Id>)
    requires Taken(m0, free0, m, free, ids) && IsChain(m0, Some(x), c)
    ensures BytesKept(m0, m, x)
  {
    SameBytes(m0, m, x, c);
  }

  lemma AppendBytes(m: Store, m': Store, h: Id, t: Id, a: seq<Id>, b: seq<Id>)
    requires IsChain(m, Some(h), a) && IsChain(m, Some(t), b) && IsChain(m', Some(h), a + b)
    requires Flat(m', a + b) == Flat(m, a) + Flat(m, b)
    requires forall id :: id in b && id in m ==> SameNode(m, m', id)
    ensures Appended(m, m', h, t)
  {
    SameBytes(m, m', t, b);
    ChainIs(m, h, a);
    ChainIs(m', h, a + b);
  }

  /** pbuf_free_header: the bytes behind the new head, or the end of the chain. */
  lemma HeaderBytes(s: State, s': State, i: nat, n: U16, ids: seq<Id>, p: Option<Id>)
    requires i < |s.held| && IsChain(s.mem, Some(s.held[i]), ids) && s'.held == Without(s.held, i) + Kept(p)
    requires var k := HeaderIndex(s.mem, ids, n);
             && p == HeadFrom(ids, k) && IsChain(s'.mem, p, ids[k..])
             && Flat(s'.mem, ids[k..]) == Tail(Flat(s.mem, ids), n)
    ensures BytesStepped(s, FreeHeader(i, n), s')
  {
    hide IsChain, ChainFrom, Flat, HeaderIndex;
    ChainIs(s.mem, s.held[i], ids);
    var k, others := HeaderIndex(s.mem, ids, n), s.held[..i] + s.held[i + 1..];
    assert ids[|ids|..] == [];
    NoBytes(s'.mem);
    if p.Some? {
      ChainIs(s'.mem, p.value, ids[k..]);
      assert s'.held == others + [p.value];
    } else {
      assert s'.held == others;
    }
  }

  lemma NoBytes(m: Store)
    ensures Flat(m, []) == []
  {
  }

  // ---------- Making it ----------

  /** One call, with the client's list kept up to date. */
  method Perform(pool: PbufPool, call: Call, held: seq<Id>, first: nat, room: nat) returns (now: seq<Id>, r: Outcome)
    requires pool.Valid() && pool.handles == multiset(held) && first > 0 && room > 0
    modifies pool
    ensures pool.Valid() && pool.Elements() == old(pool.Elements())
    ensures r.Halted? <==> Halts(old(StateOf(pool, held)), call)
    ensures r.Returned? ==> pool.handles == multiset(now)
    ensures r.Returned? ==> Stepped(old(StateOf(pool, held)), call, StateOf(pool, now), first, room)
    ensures r.Returned? ==> BytesStepped(old(StateOf(pool, held)), call, StateOf(pool, now))
  {
    hide RefOk, Ranked, IsChain, ChainFrom, Disjoint, Halts, Stepped, BytesStepped;
    match call
    case Alloc(n) => now, r := PerformAlloc(pool, n, held, first, room);
    case Ref(p) => now, r := PerformRef(pool, p, held, first, room);
    case Free(i) => now, r := PerformFree(pool, i, held, first, room);
    case Cat(h, i) => now, r := PerformCat(pool, h, i, held, first, room);
    case Chain(h, i) => now, r := PerformChain(pool, h, i, held, first, room);
    case Dechain(p) => now, r := PerformDechain(pool, p, held, first, room);
    case Realloc(p, n) => now, r := PerformRealloc(pool, p, n, held, first, room);
    case FreeHeader(i, n) => now, r := PerformHeader(pool, i, n, held, first, room);
  }

  method PerformAlloc(pool: PbufPool, n: U16, held: seq<Id>, first: nat, room: nat)
    returns (now: seq<Id>, r: Outcome)
    requires pool.Valid() && pool.handles == multiset(held) && first > 0 && room > 0
    modifies pool
    ensures pool.Valid() && pool.Elements() == old(pool.Elements())
    ensures r.Returned? && !Halts(old(StateOf(pool, held)), Alloc(n)) && pool.handles == multiset(now)
    ensures Stepped(old(StateOf(pool, held)), Alloc(n), StateOf(pool, now), first, room)
    ensures BytesStepped(old(StateOf(pool, held)), Alloc(n), StateOf(pool, now))
  {
    hide RefOk, Ranked, IsChain, TotOk, Flat, Taken, Full, PbufsFor, HandleOf;
    ghost var s := StateOf(pool, held);
    var p, ids := pool.AllocPool(n, first, room);
    KeptHandles(held, p);
    now, r := held + Kept(p), Returned;
    if p.Some? {
      ChainIs(pool.mem, p.value, ids);
      assert AllocStep(s, StateOf(pool, now), n, first, room, ids);
      TakenFresh(s.mem, s.free, pool.mem, pool.free, ids, p.value);
      assert |BytesFrom(pool.mem, p.value)| == n;
    }
    forall x | x in s.mem ensures BytesKept(s.mem, pool.mem, x) {
      if p.Some? { TakenKeepsBytes(s.mem, s.free, pool.mem, pool.free, ids, x, old(pool.Chain(x))); }
    }
  }

  /** pbuf_ref */
  method PerformRef(pool: PbufPool, p: Id, held: seq<Id>, ghost first: nat, ghost room: nat)
    returns (now: seq<Id>, r: Outcome)
    requires pool.Valid() && pool.handles == multiset(held) && first > 0 && room > 0
    modifies pool
    ensures pool.Valid() && pool.Elements() == old(pool.Elements())
    ensures r.Halted? <==> Halts(old(StateOf(pool, held)), Ref(p))
    ensures r.Returned? ==> pool.handles == multiset(now)
    ensures r.Returned? ==> Stepped(old(StateOf(pool, held)), Ref(p), StateOf(pool, now), first, room)
    ensures r.Returned? ==> BytesStepped(old(StateOf(pool, held)), Ref(p), StateOf(pool, now))
  {
    hide RefOk, Ranked, IsChain, ChainFrom, TotOk, Flat, Without;
    now, r := held, Returned;
    if p in pool.mem {
      ghost var m0 := pool.mem;
      r := pool.Ref(p);
      KeptHandles(held, Some(p));
      forall x | x in m0 && r.Returned? ensures BytesKept(m0, pool.mem, x) {
        SameBytes(m0, pool.mem, x, old(pool.Chain(x)));
      }
      now := held + [p];
    }
  }

  /** pbuf_dechain */
  method PerformDechain(pool: PbufPool, p: Id, held: seq<Id>, ghost first: nat, ghost room: nat)
    returns (now: seq<Id>, r: Outcome)
    requires pool.Valid() && pool.handles == multiset(held) && first > 0 && room > 0
    modifies pool
    ensures pool.Valid() && pool.Elements() == old(pool.Elements())
    ensures r.Halted? <==> Halts(old(StateOf(pool, held)), Dechain(p))
    ensures r.Returned? ==> pool.handles == multiset(now)
    ensures r.Returned? ==> Stepped(old(StateOf(pool, held)), Dechain(p), StateOf(pool, now), first, room)
    ensures r.Returned? ==> BytesStepped(old(StateOf(pool, held)), Dechain(p), StateOf(pool, now))
  {
    hide RefOk, Ranked, IsChain, ChainFrom, TotOk, Flat, DechainHalts, Dropped, Unshared, Wrapped, Detached;
    now, r := held, Returned;
    if p in pool.mem {
      ChainIs(pool.mem, p, pool.Chain(p));
      var q;
      q, r := pool.Dechain(p);
      if r.Returned? { ChainIs(pool.mem, p, [p]); }
    }
  }

  /** pbuf_realloc */
  method PerformRealloc(pool: PbufPool, p: Id, n: U16, held: seq<Id>, ghost first: nat, ghost room: nat)
    returns (now: seq<Id>, r: Outcome)
    requires pool.Valid() && pool.handles == multiset(held) && first > 0 && room > 0
    modifies pool
    ensures pool.Valid() && pool.Elements() == old(pool.Elements())
    ensures r.Halted? <==> Halts(old(StateOf(pool, held)), Realloc(p, n))
    ensures r.Returned? ==> pool.handles == multiset(now)
    ensures r.Returned? ==> Stepped(old(StateOf(pool, held)), Realloc(p, n), StateOf(pool, now), first, room)
    ensures r.Returned? ==> BytesStepped(old(StateOf(pool, held)), Realloc(p, n), StateOf(pool, now))
  {
    hide RefOk, Ranked, IsChain, ChainFrom, TotOk, Flat, Dropped, Shortened, KeepIndex, AddTotals;
    now, r := held, Returned;
    if p in pool.mem {
      ChainIs(pool.mem, p, pool.Chain(p));
      ghost var ids, m0 := pool.Chain(p), pool.mem;
      r := pool.Realloc(p, n);
      if r.Returned? && n < m0[p].totLen { ChainIs(pool.mem, p, ids[..KeepIndex(m0, ids, n) + 1]); }
    }
  }

  /** pbuf_free */
  method PerformFree(pool: PbufPool, i: nat, held: seq<Id>, ghost first: nat, ghost room: nat)
    returns (now: seq<Id>, r: Outcome)
    requires pool.Valid() && pool.handles == multiset(held) && first > 0 && room > 0
    modifies pool
    ensures pool.Valid() && pool.Elements() == old(pool.Elements())
    ensures r.Halted? <==> Halts(old(StateOf(pool, held)), Free(i))
    ensures r.Returned? ==> pool.handles == multiset(now)
    ensures r.Returned? ==> Stepped(old(StateOf(pool, held)), Free(i), StateOf(pool, now), first, room)
    ensures r.Returned? ==> BytesStepped(old(StateOf(pool, held)), Free(i), StateOf(pool, now))
    ensures i < |held| ==> |now| < |held|
  {
    hide RefOk, Ranked, IsChain, ChainFrom, TotOk, Flat, Dropped, Unshared, Wrapped, Without, Kept;
    now, r := held, Returned;
    if i < |held| {
      HeldLive(pool.mem, held);
      ChainIs(pool.mem, held[i], pool.Chain(held[i]));
      WithoutHandles(held, i, None);
      ghost var m0, ids := pool.mem, pool.Chain(held[i]);
      var _ := pool.Free(held[i]);
      now := Without(held, i);
      WithoutIs(held, i);
      forall x | x in pool.mem ensures BytesKept(m0, pool.mem, x) {
        DropKeepsBytes(m0, multiset(held), ids, held[i], x, pool.Chain(x));
      }
    }
  }

  /** pbuf_free_header */
  method PerformHeader(pool: PbufPool, i: nat, n: U16, held: seq<Id>, ghost first: nat, ghost room: nat)
    returns (now: seq<Id>, r: Outcome)
    requires pool.Valid() && pool.handles == multiset(held) && first > 0 && room > 0
    modifies pool
    ensures pool.Valid() && pool.Elements() == old(pool.Elements())
    ensures r.Halted? <==> Halts(old(StateOf(pool, held)), FreeHeader(i, n))
    ensures r.Returned? ==> pool.handles == multiset(now)
    ensures r.Returned? ==> Stepped(old(StateOf(pool, held)), FreeHeader(i, n), StateOf(pool, now), first, room)
    ensures r.Returned? ==> BytesStepped(old(StateOf(pool, held)), FreeHeader(i, n), StateOf(pool, now))
  {
    hide RefOk, Ranked, IsChain, ChainFrom, TotOk, Flat, HeaderIndex, HeaderNodes, Tail, HeadFrom, HandleOf,
         Without, Kept, BytesStepped;
    now, r := held, Returned;
    NotMade(StateOf(pool, held), FreeHeader(i, n));
    if i < |held| {
      HeldLive(pool.mem, held);
      ChainIs(pool.mem, held[i], pool.Chain(held[i]));
      ghost var s, ids := StateOf(pool, held), pool.Chain(held[i]);
      var rest := pool.FreeHeader(held[i], n);
      WithoutHandles(held, i, rest);
      now := Without(held, i) + Kept(rest);
      HeaderBytes(s, StateOf(pool, now), i, n, ids, rest);
    }
  }

  /** Whether the `i`-th pointer may be appended to the chain from `h`. */
  method MayAppend(pool: PbufPool, h: Id, i: nat, held: seq<Id>) returns (may: bool)
    requires pool.Valid() && pool.handles == multiset(held)
    ensures may <==> Appends(StateOf(pool, held), h, i)
    ensures may ==> h in pool.mem && i < |held| && held[i] in pool.mem && held[i] in pool.handles
    ensures may ==> ChainFrom(pool.mem, h) == pool.Chain(h)
    ensures may ==> Disjoint(pool.Chain(h), pool.Chain(held[i]))
  {
    hide RefOk, Ranked, IsChain, ChainFrom, Disjoint;
    if h !in pool.mem || i >= |held| {
      return false;
    }
    HeldLive(pool.mem, held);
    ChainIs(pool.mem, h, pool.Chain(h));
    ChainIs(pool.mem, held[i], pool.Chain(held[i]));
    var a := Walk(pool, h);
    var b := Walk(pool, held[i]);
    may := Disjoint(a, b);
  }

  /** pbuf_cat */
  method PerformCat(pool: PbufPool, h: Id, i: nat, held: seq<Id>, ghost first: nat, ghost room: nat)
    returns (now: seq<Id>, r: Outcome)
    requires pool.Valid() && pool.handles == multiset(held) && first > 0 && room > 0
    modifies pool
    ensures pool.Valid() && pool.Elements() == old(pool.Elements())
    ensures r.Halted? <==> Halts(old(StateOf(pool, held)), Cat(h, i))
    ensures r.Returned? ==> pool.handles == multiset(now)
    ensures r.Returned? ==> Stepped(old(StateOf(pool, held)), Cat(h, i), StateOf(pool, now), first, room)
    ensures r.Returned? ==> BytesStepped(old(StateOf(pool, held)), Cat(h, i), StateOf(pool, now))
  {
    hide RefOk, Ranked, IsChain, ChainFrom, TotOk, Flat, CatHalts, Joined, Joinable, AddTotals, Without, Appends;
    now, r := held, Returned;
    var may := MayAppend(pool, h, i, held);
    if may {
      WithoutHandles(held, i, None);
      ghost var m0, a, b := pool.mem, pool.Chain(h), pool.Chain(held[i]);
      r := pool.Cat(h, held[i]);
      now := Without(held, i);
      WithoutIs(held, i);
      if r.Returned? {
        JoinedEffect(m0, a, held[i]);
        AppendBytes(m0, pool.mem, h, held[i], a, b);
      }
    }
  }

  /** pbuf_chain */
  method PerformChain(pool: PbufPool, h: Id, i: nat, held: seq<Id>, ghost first: nat, ghost room: nat)
    returns (now: seq<Id>, r: Outcome)
    requires pool.Valid() && pool.handles == multiset(held) && first > 0 && room > 0
    modifies pool
    ensures pool.Valid() && pool.Elements() == old(pool.Elements())
    ensures r.Halted? <==> Halts(old(StateOf(pool, held)), Chain(h, i))
    ensures r.Returned? ==> pool.handles == multiset(now)
    ensures r.Returned? ==> Stepped(old(StateOf(pool, held)), Chain(h, i), StateOf(pool, now), first, room)
    ensures r.Returned? ==> BytesStepped(old(StateOf(pool, held)), Chain(h, i), StateOf(pool, now))
  {
    hide RefOk, Ranked, IsChain, ChainFrom, TotOk, Flat, CatHalts, Joined, Joinable, AddTotals, Without, Appends;
    now, r := held, Returned;
    var may := MayAppend(pool, h, i, held);
    if may {
      ghost var m0, a, b := pool.mem, pool.Chain(h), pool.Chain(held[i]);
      r := pool.ChainTo(h, held[i]);
      if r.Returned? {
        JoinedEffect(m0, a, held[i]);
        AppendBytes(m0, pool.mem, h, held[i], a, b);
      }
    }
  }

  // ---------- Runs ----------

  /** Each counter is the number of handles and next pointers, all live, and no element is lost. */
  ghost predicate Exact(s: State, elements: set<Id>) {
    RefOk(s.mem, multiset(s.held)) && s.mem.Keys !! s.free && s.mem.Keys + s.free == elements
  }

  /** `run` is what `calls` go through from its first state on. */
  ghost predicate IsRun(run: seq<State>, calls: seq<Call>, first: nat, room: nat)
    requires first > 0 && room > 0
  {
    && 1 <= |run| <= |calls| + 1
    && forall i :: 0 <= i < |run| - 1 ==> !Halts(run[i], calls[i]) && Stepped(run[i], calls[i], run[i + 1], first, room)
  }

  /**
   Over every run of calls, in every state on the way, the counters are exact and no element of the
   pool is lost; the run ends early exactly when a call halts. Otherwise the client frees what it then
   holds, and every element is back in the pool.
   */
  method Session(pool: PbufPool, start: seq<Id>, calls: seq<Call>, first: nat, room: nat)
    returns (r: Outcome, ghost run: seq<State>)
    requires pool.Valid() && pool.handles == multiset(start) && first > 0 && room > 0
    modifies pool
    ensures IsRun(run, calls, first, room) && run[0] == old(StateOf(pool, start))
    ensures forall i :: 0 <= i < |run| ==> Exact(run[i], old(pool.Elements()))
    ensures forall i :: 0 <= i < |run| - 1 ==> BytesStepped(run[i], calls[i], run[i + 1])
    ensures if r.Halted? then |run| <= |calls| && Halts(run[|run| - 1], calls[|run| - 1]) else |run| == |calls| + 1
    ensures r.Returned? ==> pool.Valid() && pool.mem == map[] && pool.free == old(pool.Elements())
  {
    hide RefOk, Ranked, Halts, Stepped, BytesStepped;
    var held := start;
    r, run := Returned, [StateOf(pool, held)];
    for k := 0 to |calls|
      invariant pool.Valid() && pool.handles == multiset(held) && pool.Elements() == old(pool.Elements())
      invariant |run| == k + 1 && run[0] == old(StateOf(pool, start)) && run[k] == StateOf(pool, held)
      invariant IsRun(run, calls, first, room)
      invariant forall i :: 0 <= i < |run| - 1 ==> BytesStepped(run[i], calls[i], run[i + 1])
      invariant forall i :: 0 <= i < |run| ==> Exact(run[i], old(pool.Elements()))
    {
      held, r := Perform(pool, calls[k], held, first, room);
      if r.Halted? {
        return;
      }
      run := run + [StateOf(pool, held)];
    }
    FreeHeld(pool, held, first, room);
    r := Returned;
  }

  /** The client frees every pointer that it holds. */
  method FreeHeld(pool: PbufPool, start: seq<Id>, first: nat, room: nat)
    requires pool.Valid() && pool.handles == multiset(start) && first > 0 && room > 0
    modifies pool
    ensures pool.Valid() && pool.mem == map[] && pool.free == old(pool.Elements())
  {
    hide RefOk, Ranked;
    var held := start;
    while held != []
      invariant pool.Valid() && pool.handles == multiset(held) && pool.Elements() == old(pool.Elements())
      decreases |held|
    {
      var r;
      held, r := PerformFree(pool, 0, held, first, room);
    }
    pool.AllReturned();
  }
}
