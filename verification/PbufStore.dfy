/**
 Packet buffers as a store of nodes: reference counts, chains and the bytes they hold.
 A pbuf's payload pointer and `len` are one field here, the bytes that are visible through them.
 */
module PbufStore {
  import opened Machine

  type Id = nat

  /** `len` is a 16-bit field. */
  type Payload = s: seq<Byte> | |s| <= 0xFFFF

  datatype Pbuf = Pbuf(next: Option<Id>, payload: Payload, totLen: U16, ref: Byte)

  /** The live pbufs. */
  type Store = map<Id, Pbuf>

  // ---------- Reference counts ----------

  /** The pbufs whose next pointer is `x`. */
  function Preds(m: Store, x: Id): set<Id> { set q | q in m && m[q].next == Some(x) }

  predicate CountOk(m: Store, handles: multiset<Id>, x: Id)
    requires x in m
  {
    && m[x].ref == handles[x] + |Preds(m, x)| && m[x].ref > 0
    && (m[x].next.Some? ==> m[x].next.value in m)
  }

  /** Each counter is the number of handles and next pointers, and all of these are live. */
  ghost predicate RefOk(m: Store, handles: multiset<Id>) {
    && (forall x {:trigger CountOk(m, handles, x)} :: x in m ==> CountOk(m, handles, x))
    && (forall x :: x in handles ==> x in m)
  }

  /** Ranks fall along next pointers: no chain runs in a circle. */
  ghost predicate Ranked(m: Store, rank: map<Id, nat>) {
    forall x {:trigger RankOk(m, rank, x)} :: x in m ==> RankOk(m, rank, x)
  }

  predicate RankOk(m: Store, rank: map<Id, nat>, x: Id)
    requires x in m
  {
    x in rank && (m[x].next.Some? ==> m[x].next.value in rank && rank[m[x].next.value] < rank[x])
  }

  /** Ranks still fit when no next pointer is new. */
  lemma RankedFewer(m: Store, m': Store, rank: map<Id, nat>)
    requires Ranked(m, rank)
    requires forall x :: x in m' ==> x in m && (m'[x].next == m[x].next || m'[x].next.None?)
    ensures Ranked(m', rank)
  {
    forall x | x in m' ensures RankOk(m', rank, x) { assert RankOk(m, rank, x); }
  }

  /** Two stores with the same links and counters. */
  ghost predicate SameLinks(m: Store, m': Store) {
    m.Keys == m'.Keys && forall x :: x in m ==> m'[x].next == m[x].next && m'[x].ref == m[x].ref
  }

  lemma RefOkSameLinks(m: Store, m': Store, handles: multiset<Id>)
    requires RefOk(m, handles) && SameLinks(m, m')
    ensures RefOk(m', handles)
  {
    forall x | x in m' ensures CountOk(m', handles, x) {
      assert CountOk(m, handles, x);
      assert Preds(m', x) == Preds(m, x);
    }
  }

  /** A new pbuf with one handle. */
  lemma RefOkAlloc(m: Store, handles: multiset<Id>, x: Id, p: Pbuf)
    requires RefOk(m, handles) && x !in m && p.next.None? && p.ref == 1
    ensures RefOk(m[x := p], handles + multiset{x})
  {
    var m', h' := m[x := p], handles + multiset{x};
    forall y | y in m' ensures CountOk(m', h', y) {
      assert y != x ==> CountOk(m, handles, y);
      assert Preds(m', y) == Preds(m, y);
      NoPreds(m, handles, x);
    }
  }

  lemma NoPreds(m: Store, handles: multiset<Id>, x: Id)
    requires RefOk(m, handles) && x !in m
    ensures Preds(m, x) == {} && handles[x] == 0
  {
    forall q | q in m ensures m[q].next != Some(x) { assert CountOk(m, handles, q); }
  }

  lemma HandleLive(m: Store, handles: multiset<Id>, x: Id)
    requires RefOk(m, handles + multiset{x})
    ensures x in m && m[x].ref > 0
  {
    assert x in handles + multiset{x};
    assert CountOk(m, handles + multiset{x}, x);
  }

  /** One more handle (pbuf_ref). */
  lemma RefOkRef(m: Store, handles: multiset<Id>, x: Id)
    requires RefOk(m, handles) && x in m && m[x].ref < 255
    ensures RefOk(m[x := m[x].(ref := m[x].ref + 1)], handles + multiset{x})
  {
    var m', h' := m[x := m[x].(ref := m[x].ref + 1)], handles + multiset{x};
    forall y | y in m' ensures CountOk(m', h', y) {
      assert CountOk(m, handles, y);
      assert Preds(m', y) == Preds(m, y);
    }
  }

  /** One handle less, with others left. */
  lemma RefOkUnref(m: Store, handles: multiset<Id>, x: Id)
    requires RefOk(m, handles + multiset{x}) && x in m && m[x].ref > 1
    ensures RefOk(m[x := m[x].(ref := m[x].ref - 1)], handles)
  {
    var m' := m[x := m[x].(ref := m[x].ref - 1)];
    forall y | y in m' ensures CountOk(m', handles, y) {
      assert CountOk(m, handles + multiset{x}, y);
      assert Preds(m', y) == Preds(m, y);
    }
    forall y | y in handles ensures y in m' { assert y in handles + multiset{x}; }
  }

  /** The handle that a pointer is. */
  function HandleOf(x: Option<Id>): multiset<Id> {
    match x
    case Some(y) => multiset{y}
    case None => multiset{}
  }

  /** The last handle gone: the pbuf is released, and its next pointer becomes a handle to drop. */
  lemma RefOkRelease(m: Store, handles: multiset<Id>, x: Id)
    requires RefOk(m, handles + multiset{x}) && x in m && m[x].ref == 1
    ensures RefOk(m - {x}, handles + HandleOf(m[x].next))
  {
    var m', h' := m - {x}, handles + HandleOf(m[x].next);
    LastReference(m, handles, x);
    hide Preds;
    forall y | y in m' ensures CountOk(m', h', y) {
      assert CountOk(m, handles + multiset{x}, y);
      PredsRemove(m, x, y);
    }
    assert CountOk(m, handles + multiset{x}, x);
    forall y | y in h' ensures y in m' {
      assert y in handles + multiset{x} || m[x].next == Some(y);
    }
  }

  /** A counter of one leaves no other handle and no predecessor. */
  lemma LastReference(m: Store, handles: multiset<Id>, x: Id)
    requires RefOk(m, handles + multiset{x}) && x in m && m[x].ref == 1
    ensures handles[x] == 0 && forall q :: q in m ==> m[q].next != Some(x)
  {
    assert CountOk(m, handles + multiset{x}, x);
    assert Preds(m, x) == {};
    forall q | q in m ensures m[q].next != Some(x) { assert q !in Preds(m, x); }
  }

  lemma PredsRemove(m: Store, x: Id, y: Id)
    requires x in m
    ensures |Preds(m - {x}, y)| + One(m[x].next == Some(y)) == |Preds(m, y)|
  {
    assert Preds(m - {x}, y) == Preds(m, y) - {x};
    assert m[x].next == Some(y) <==> x in Preds(m, y);
  }

  function One(b: bool): nat { if b then 1 else 0 }

  lemma CardWithout(s: set<Id>, x: Id)
    ensures |s| == |s - {x}| + One(x in s)
  {
    if x in s { assert s == (s - {x}) + {x}; } else { assert s == s - {x}; }
  }

  /** Rewriting one next pointer moves one predecessor. */
  lemma PredsSetNext(m: Store, x: Id, next: Option<Id>, y: Id)
    requires x in m
    ensures |Preds(m[x := m[x].(next := next)], y)| + One(m[x].next == Some(y)) == |Preds(m, y)| + One(next == Some(y))
  {
    var was, now := Preds(m, y), Preds(m[x := m[x].(next := next)], y);
    CardWithout(was, x);
    CardWithout(now, x);
    assert was - {x} == now - {x};
    assert x in was <==> m[x].next == Some(y);
    assert x in now <==> next == Some(y);
  }

  /** Clearing a next pointer turns it into a handle. */
  lemma RefOkUnlink(m: Store, handles: multiset<Id>, x: Id)
    requires RefOk(m, handles) && x in m
    ensures RefOk(m[x := m[x].(next := None)], handles + HandleOf(m[x].next))
  {
    hide Preds;
    var m', h' := m[x := m[x].(next := None)], handles + HandleOf(m[x].next);
    assert CountOk(m, handles, x);
    forall y | y in m' ensures CountOk(m', h', y) {
      assert CountOk(m, handles, y);
      PredsSetNext(m, x, None, y);
    }
  }

  /** Setting a next pointer uses up a handle. */
  lemma RefOkLink(m: Store, handles: multiset<Id>, x: Id, t: Id)
    requires RefOk(m, handles + multiset{t}) && x in m && m[x].next.None? && t in m
    ensures RefOk(m[x := m[x].(next := Some(t))], handles)
  {
    hide Preds;
    var m' := m[x := m[x].(next := Some(t))];
    forall y | y in m' ensures CountOk(m', handles, y) {
      assert CountOk(m, handles + multiset{t}, y);
      PredsSetNext(m, x, Some(t), y);
    }
    forall y | y in handles ensures y in m' { assert y in handles + multiset{t}; }
  }

  /** With no handles left, nothing is live: every counter stands for a reference that exists. */
  lemma NoHandlesNoPbufs(m: Store, rank: map<Id, nat>)
    requires RefOk(m, multiset{}) && Ranked(m, rank)
    ensures m == map[]
  {
    if m != map[] {
      var x := HighestRank(m, rank);
      TopIsHeld(m, multiset{}, rank, x);
    }
  }

  /** A pbuf of highest rank has no predecessor, so somebody holds it. */
  lemma TopIsHeld(m: Store, handles: multiset<Id>, rank: map<Id, nat>, x: Id)
    requires RefOk(m, handles) && Ranked(m, rank) && x in m && x in rank
    requires forall y :: y in m ==> y in rank && rank[y] <= rank[x]
    ensures x in handles
  {
    forall q | q in m ensures q !in Preds(m, x) { assert RankOk(m, rank, q); }
    assert Preds(m, x) == {};
    assert CountOk(m, handles, x);
  }

  lemma HighestRank(m: Store, rank: map<Id, nat>) returns (x: Id)
    requires m != map[] && Ranked(m, rank)
    ensures x in m && x in rank && forall y :: y in m ==> y in rank && rank[y] <= rank[x]
  {
    forall y | y in m ensures y in rank { assert RankOk(m, rank, y); }
    assert m.Keys != {};
    x := HighestIn(m.Keys, rank);
  }

  lemma HighestIn(s: set<Id>, rank: map<Id, nat>) returns (x: Id)
    requires s != {} && forall y :: y in s ==> y in rank
    ensures x in s && forall y :: y in s ==> rank[y] <= rank[x]
  {
    var z :| z in s;
    if s == {z} {
      x := z;
    } else {
      x := HighestIn(s - {z}, rank);
      if rank[x] < rank[z] { x := z; }
    }
  }

  // ---------- Chains ----------

  /** `ids` are the pbufs reached from `x` by next pointers, to the end. */
  predicate IsChain(m: Store, x: Option<Id>, ids: seq<Id>)
    decreases ids
  {
    if ids == [] then x.None?
    else x == Some(ids[0]) && ids[0] in m && IsChain(m, m[ids[0]].next, ids[1..])
  }

  /** No pbuf in use points at one that is not. */
  ghost predicate Closed(m: Store) {
    forall x {:trigger NextLive(m, x)} :: x in m ==> NextLive(m, x)
  }

  predicate NextLive(m: Store, x: Id)
    requires x in m
  {
    m[x].next.Some? ==> m[x].next.value in m
  }

  lemma RefOkClosed(m: Store, handles: multiset<Id>)
    requires RefOk(m, handles)
    ensures Closed(m)
  {
    forall x | x in m ensures NextLive(m, x) { assert CountOk(m, handles, x); }
  }

  /** The chain from a live pbuf. */
  ghost function ChainOf(m: Store, rank: map<Id, nat>, x: Option<Id>): (ids: seq<Id>)
    requires Ranked(m, rank) && Closed(m) && (x.Some? ==> x.value in m)
    ensures IsChain(m, x, ids)
    decreases if x.Some? && x.value in rank then rank[x.value] + 1 else 0
  {
    match x
    case None => []
    case Some(y) =>
      assert RankOk(m, rank, y) && NextLive(m, y);
      assert m[y].next.Some? ==> RankOk(m, rank, m[y].next.value);
      [y] + ChainOf(m, rank, m[y].next)
  }

  lemma {:induction false} ChainUnique(m: Store, x: Option<Id>, a: seq<Id>, b: seq<Id>)
    requires IsChain(m, x, a) && IsChain(m, x, b)
    ensures a == b
    decreases a
  {
    if a != [] { ChainUnique(m, m[a[0]].next, a[1..], b[1..]); }
  }

  lemma {:induction false} ChainSuffix(m: Store, x: Option<Id>, ids: seq<Id>, i: nat)
    requires IsChain(m, x, ids) && i <= |ids|
    ensures IsChain(m, if i < |ids| then Some(ids[i]) else None, ids[i..])
    ensures i < |ids| ==> ids[i] in m && m[ids[i]].next == if i + 1 < |ids| then Some(ids[i + 1]) else None
    decreases i
  {
    if i > 0 {
      ChainSuffix(m, m[ids[0]].next, ids[1..], i - 1);
      assert ids[1..][i - 1..] == ids[i..];
    }
  }

  lemma ChainHead(m: Store, x: Id, ids: seq<Id>)
    requires IsChain(m, Some(x), ids)
    ensures ids != [] && ids[0] == x
  {
  }

  lemma ChainMembers(m: Store, x: Option<Id>, ids: seq<Id>)
    requires IsChain(m, x, ids)
    ensures forall id :: id in ids ==> id in m
  {
    forall i | 0 <= i < |ids| ensures ids[i] in m { ChainSuffix(m, x, ids, i); }
  }

  /** A chain visits no pbuf twice. */
  lemma ChainDistinct(m: Store, x: Option<Id>, ids: seq<Id>)
    requires IsChain(m, x, ids)
    ensures forall i, j :: 0 <= i < j < |ids| ==> ids[i] != ids[j]
  {
    forall i, j | 0 <= i < j < |ids| ensures ids[i] != ids[j] {
      ChainSuffix(m, x, ids, i);
      ChainSuffix(m, x, ids, j);
      if ids[i] == ids[j] {
        ChainUnique(m, Some(ids[i]), ids[i..], ids[j..]);
      }
    }
  }

  lemma {:induction false} ChainFrame(m: Store, m': Store, x: Option<Id>, ids: seq<Id>)
    requires IsChain(m, x, ids)
    requires forall id :: id in ids ==> id in m && id in m' && m'[id].next == m[id].next
    ensures IsChain(m', x, ids)
    decreases ids
  {
    if ids != [] { ChainFrame(m, m', m[ids[0]].next, ids[1..]); }
  }

  // ---------- Bytes ----------

  function PayloadOf(m: Store, x: Id): seq<Byte> { if x in m then m[x].payload else [] }

  /** The bytes of a chain. */
  function Flat(m: Store, ids: seq<Id>): seq<Byte> {
    if ids == [] then [] else PayloadOf(m, ids[0]) + Flat(m, ids[1..])
  }

  /** Every total length along the chain is its own length plus the next total. */
  predicate TotOk(m: Store, ids: seq<Id>) {
    ids == [] || (ids[0] in m && m[ids[0]].totLen == |Flat(m, ids)| && TotOk(m, ids[1..]))
  }

  lemma {:induction false} FlatConcat(m: Store, a: seq<Id>, b: seq<Id>)
    ensures Flat(m, a + b) == Flat(m, a) + Flat(m, b)
  {
    if a == [] {
      assert a + b == b;
    } else {
      assert (a + b)[1..] == a[1..] + b;
      FlatConcat(m, a[1..], b);
    }
  }

  lemma FlatSplit(m: Store, ids: seq<Id>, i: nat)
    requires i < |ids|
    ensures Flat(m, ids) == Flat(m, ids[..i]) + PayloadOf(m, ids[i]) + Flat(m, ids[i + 1..])
    ensures Flat(m, ids[i..]) == PayloadOf(m, ids[i]) + Flat(m, ids[i + 1..])
  {
    assert ids[..i] + ids[i..] == ids;
    FlatConcat(m, ids[..i], ids[i..]);
    assert ids[i..][0] == ids[i] && ids[i..][1..] == ids[i + 1..];
  }

  lemma {:induction false} FlatFrame(m: Store, m': Store, ids: seq<Id>)
    requires forall id :: id in ids ==> PayloadOf(m', id) == PayloadOf(m, id)
    ensures Flat(m', ids) == Flat(m, ids)
  {
    if ids != [] { FlatFrame(m, m', ids[1..]); }
  }

  lemma {:induction false} TotFrame(m: Store, m': Store, ids: seq<Id>)
    requires TotOk(m, ids)
    requires forall id :: id in ids ==>
               id in m && id in m' && m'[id].payload == m[id].payload && m'[id].totLen == m[id].totLen
    ensures TotOk(m', ids) && Flat(m', ids) == Flat(m, ids)
  {
    FlatFrame(m, m', ids);
    if ids != [] { TotFrame(m, m', ids[1..]); }
  }

  /** Whether the totals are right depends on lengths and totals only. */
  lemma TotSame(m: Store, m': Store, ids: seq<Id>)
    requires forall id :: id in ids ==>
               id in m && id in m' && m'[id].payload == m[id].payload && m'[id].totLen == m[id].totLen
    ensures TotOk(m', ids) <==> TotOk(m, ids)
    ensures Flat(m', ids) == Flat(m, ids)
  {
    FlatFrame(m, m', ids);
    if TotOk(m, ids) { TotFrame(m, m', ids); }
    if TotOk(m', ids) { TotFrame(m', m, ids); }
  }

  lemma {:induction false} TotAt(m: Store, ids: seq<Id>, i: nat)
    requires TotOk(m, ids) && i <= |ids|
    ensures TotOk(m, ids[i..]) && (i < |ids| ==> ids[i] in m && m[ids[i]].totLen == |Flat(m, ids[i..])|)
    decreases i
  {
    if i > 0 {
      TotAt(m, ids[1..], i - 1);
      assert ids[1..][i - 1..] == ids[i..];
    }
  }

  // ---------- Dropping a reference ----------

  /** How many pbufs at the head of a chain have only the one reference. */
  function Unshared(m: Store, ids: seq<Id>): (k: nat)
    ensures k <= |ids| && (forall i :: 0 <= i < k ==> ids[i] in m && m[ids[i]].ref == 1)
    ensures k < |ids| ==> ids[k] !in m || m[ids[k]].ref != 1
  {
    if ids == [] || ids[0] !in m || m[ids[0]].ref != 1 then 0 else 1 + Unshared(m, ids[1..])
  }

  /** The store after one reference to the head of `ids` is dropped. */
  function Dropped(m: Store, ids: seq<Id>): Store
    decreases ids
  {
    if ids == [] || ids[0] !in m then m
    else if m[ids[0]].ref > 1 then m[ids[0] := m[ids[0]].(ref := m[ids[0]].ref - 1)]
    else Dropped(m - {ids[0]}, ids[1..])
  }

  function SetOf(ids: seq<Id>): set<Id> { set id | id in ids }

  lemma SetOfHead(ids: seq<Id>, k: nat)
    requires k < |ids|
    ensures SetOf(ids[..k + 1]) == {ids[0]} + SetOf(ids[1..][..k])
  {
    assert ids[..k + 1] == [ids[0]] + ids[1..][..k];
  }

  /** Exactly the unshared head goes, the first shared pbuf loses a reference, the rest stays. */
  lemma {:induction false} DroppedEffect(m: Store, ids: seq<Id>)
    requires forall i, j :: 0 <= i < j < |ids| ==> ids[i] != ids[j]
    requires forall id :: id in ids ==> id in m && m[id].ref > 0
    ensures var k, m' := Unshared(m, ids), Dropped(m, ids);
            && m'.Keys == m.Keys - SetOf(ids[..k])
            && (forall x :: x in m' && (k < |ids| ==> x != ids[k]) ==> m'[x] == m[x])
            && (k < |ids| ==> ids[k] in m' && m'[ids[k]] == m[ids[k]].(ref := m[ids[k]].ref - 1))
    decreases ids
  {
    if ids != [] && m[ids[0]].ref == 1 {
      var rest, m1 := ids[1..], m - {ids[0]};
      var k := Unshared(m1, rest);
      DroppedEffect(m1, rest);
      UnsharedFrame(m, m1, rest);
      assert Unshared(m, ids) == k + 1 && Dropped(m, ids) == Dropped(m1, rest);
      hide Unshared, Dropped;
      SetOfHead(ids, k);
    }
  }

  lemma {:induction false} UnsharedFrame(m: Store, m': Store, ids: seq<Id>)
    requires forall id :: id in ids ==> id in m && id in m' && m'[id].ref == m[id].ref
    ensures Unshared(m', ids) == Unshared(m, ids)
  {
    if ids != [] { UnsharedFrame(m, m', ids[1..]); }
  }

  /**
   The loop of pbuf_free: from store `m0` with chain `ids`, after `n` releases the store is `m` and
   the reference still to drop is `cur`, the head of what is left of the chain.
   */
  ghost predicate Dropping(m0: Store, ids: seq<Id>, handles: multiset<Id>, rank: map<Id, nat>,
                           m: Store, cur: Option<Id>, rest: seq<Id>, n: nat) {
    && RefOk(m, handles + HandleOf(cur)) && Ranked(m, rank)
    && (cur.Some? ==> IsChain(m, cur, rest))
    && (if cur.Some? then Dropped(m, rest) else m) == Dropped(m0, ids)
    && (if cur.Some? then n + Unshared(m, rest) else n) == Unshared(m0, ids)
  }

  lemma DropStarts(m: Store, ids: seq<Id>, handles: multiset<Id>, rank: map<Id, nat>, x: Id)
    requires RefOk(m, handles + multiset{x}) && Ranked(m, rank) && IsChain(m, Some(x), ids)
    ensures Dropping(m, ids, handles, rank, m, Some(x), ids, 0)
  {
  }

  lemma DropHead(m0: Store, ids: seq<Id>, handles: multiset<Id>, rank: map<Id, nat>,
                 m: Store, x: Id, rest: seq<Id>, n: nat)
    requires Dropping(m0, ids, handles, rank, m, Some(x), rest, n)
    ensures x in m && m[x].ref > 0
  {
    HandleLive(m, handles, x);
  }

  /** A round that releases a pbuf. */
  lemma DropReleases(m0: Store, ids: seq<Id>, handles: multiset<Id>, rank: map<Id, nat>,
                     m: Store, x: Id, rest: seq<Id>, n: nat)
    requires Dropping(m0, ids, handles, rank, m, Some(x), rest, n) && x in m && m[x].ref == 1
    ensures rest != [] && Dropping(m0, ids, handles, rank, m - {x}, m[x].next, rest[1..], n + 1)
  {
    RefOkRelease(m, handles, x);
    RankedFewer(m, m - {x}, rank);
    ChainMembers(m, Some(x), rest);
    ChainDistinct(m, Some(x), rest);
    ChainFrame(m, m - {x}, m[x].next, rest[1..]);
    UnsharedFrame(m, m - {x}, rest[1..]);
    assert Dropped(m, rest) == Dropped(m - {x}, rest[1..]);
    assert m[x].next.None? ==> rest[1..] == [];
  }

  /** A released element moves to the free ones. */
  lemma ReleaseKeys(m: Store, free: set<Id>, x: Id)
    requires x in m && m.Keys !! free
    ensures (m - {x}).Keys !! free + {x} && (m - {x}).Keys + (free + {x}) == m.Keys + free && |m - {x}| == |m| - 1
  {
    assert (m - {x}).Keys == m.Keys - {x};
  }

  lemma UpdateKeys(m: Store, x: Id, p: Pbuf)
    requires x in m
    ensures m[x := p].Keys == m.Keys && |m[x := p]| == |m|
  {
    assert m[x := p].Keys == m.Keys;
  }

  /** The round that meets a shared pbuf. */
  lemma DropStops(m0: Store, ids: seq<Id>, handles: multiset<Id>, rank: map<Id, nat>,
                  m: Store, x: Id, rest: seq<Id>, n: nat)
    requires Dropping(m0, ids, handles, rank, m, Some(x), rest, n) && x in m && m[x].ref > 1
    ensures Dropping(m0, ids, handles, rank, m[x := m[x].(ref := m[x].ref - 1)], None, rest, n)
  {
    RefOkUnref(m, handles, x);
    assert handles + HandleOf(None) == handles;
    RankedFewer(m, m[x := m[x].(ref := m[x].ref - 1)], rank);
  }

  lemma DropEnds(m0: Store, ids: seq<Id>, handles: multiset<Id>, rank: map<Id, nat>, m: Store, rest: seq<Id>, n: nat)
    requires Dropping(m0, ids, handles, rank, m, None, rest, n)
    ensures RefOk(m, handles) && Ranked(m, rank) && m == Dropped(m0, ids) && n == Unshared(m0, ids)
  {
    assert handles + HandleOf(None) == handles;
  }

  // ---------- Joining chains ----------

  /** Ranks for a store in which a chain's end is to point at `t`: all but the chain `b` of `t` rise. */
  function Raised(rank: map<Id, nat>, t: Id, b: seq<Id>): map<Id, nat> {
    map x | x in rank :: if x in b || t !in rank then rank[x] else rank[x] + rank[t] + 1
  }

  lemma RankedLink(m: Store, rank: map<Id, nat>, x: Id, t: Id, b: seq<Id>)
    requires Ranked(m, rank) && x in m && IsChain(m, Some(t), b) && x !in b
    ensures Ranked(m[x := m[x].(next := Some(t))], Raised(rank, t, b))
  {
    var m', rank' := m[x := m[x].(next := Some(t))], Raised(rank, t, b);
    assert RankOk(m, rank, t);
    forall y | y in m' ensures RankOk(m', rank', y) {
      assert RankOk(m, rank, y);
      if y in b {
        var i :| 0 <= i < |b| && b[i] == y;
        ChainSuffix(m, Some(t), b, i);
      }
    }
  }

  lemma {:induction false} ChainConcat(m: Store, m': Store, x: Option<Id>, a: seq<Id>, t: Id, b: seq<Id>)
    requires IsChain(m, x, a) && a != [] && IsChain(m', Some(t), b)
    requires forall id :: id in a ==> id in m && id in m' && (id != a[|a| - 1] ==> m'[id].next == m[id].next)
    requires m'[a[|a| - 1]].next == Some(t)
    requires forall i, j :: 0 <= i < j < |a| ==> a[i] != a[j]
    ensures IsChain(m', x, a + b)
    decreases a
  {
    assert (a + b)[1..] == a[1..] + b;
    if |a| == 1 {
      assert a[1..] + b == b;
    } else {
      assert a[|a| - 1] == a[1..][|a| - 2];
      ChainConcat(m, m', m[a[0]].next, a[1..], t, b);
    }
  }

  /** 16-bit addition. */
  function Add16(x: U16, y: U16): U16 { (x + y) % 0x1_0000 }

  lemma Add16Exact(x: U16, y: U16)
    ensures Add16(x, y) == x + y <==> x + y <= 0xFFFF
  {
  }

  /** The store with `d` added to the total length of each of `ids`, in 16 bits. */
  function AddTotals(m: Store, ids: seq<Id>, d: U16): Store {
    map x | x in m :: if x in ids then m[x].(totLen := Add16(m[x].totLen, d)) else m[x]
  }

  lemma AddNoTotals(m: Store, ids: seq<Id>, d: U16)
    ensures AddTotals(m, ids[..0], d) == m
  {
  }

  lemma AddTotalsAt(m: Store, ids: seq<Id>, d: U16, x: Id)
    requires x in m
    ensures var m' := AddTotals(m, ids, d);
            m'.Keys == m.Keys && m'[x].next == m[x].next && (x !in ids ==> m'[x] == m[x])
  {
  }

  lemma AddTotalsStep(m: Store, ids: seq<Id>, k: nat, d: U16)
    requires k < |ids| && ids[k] in m && ids[k] !in ids[..k]
    ensures var m1 := AddTotals(m, ids[..k], d);
            m1[ids[k] := m1[ids[k]].(totLen := Add16(m1[ids[k]].totLen, d))] == AddTotals(m, ids[..k + 1], d)
  {
    assert ids[..k + 1] == ids[..k] + [ids[k]];
  }

  lemma AddTotalsKeeps(m: Store, ids: seq<Id>, d: U16, handles: multiset<Id>, rank: map<Id, nat>)
    requires RefOk(m, handles) && Ranked(m, rank)
    ensures var m' := AddTotals(m, ids, d); SameLinks(m, m') && RefOk(m', handles) && Ranked(m', rank)
  {
    RefOkSameLinks(m, AddTotals(m, ids, d), handles);
    RankedFewer(m, AddTotals(m, ids, d), rank);
  }

  /** Totals of a chain that ends in front of `n` more bytes. */
  predicate TotBefore(m: Store, ids: seq<Id>, n: nat) {
    ids == [] || (ids[0] in m && m[ids[0]].totLen == |Flat(m, ids)| + n && TotBefore(m, ids[1..], n))
  }

  lemma {:induction false} TotConcat(m: Store, a: seq<Id>, b: seq<Id>)
    requires TotOk(m, b)
    ensures TotOk(m, a + b) <==> TotBefore(m, a, |Flat(m, b)|)
  {
    FlatConcat(m, a, b);
    if a == [] {
      assert a + b == b;
    } else {
      assert (a + b)[1..] == a[1..] + b;
      TotConcat(m, a[1..], b);
    }
  }

  lemma {:induction false} TotBeforeFrame(m: Store, m': Store, ids: seq<Id>, n: nat)
    requires TotBefore(m, ids, n)
    requires forall id :: id in ids ==>
               id in m' && id in m && m'[id].payload == m[id].payload && m'[id].totLen == m[id].totLen
    ensures TotBefore(m', ids, n)
  {
    FlatFrame(m, m', ids);
    if ids != [] { TotBeforeFrame(m, m', ids[1..], n); }
  }

  /** Adding a total that fits makes all totals right for the longer chain; one that does not, none. */
  lemma {:induction false} AddTotalsTot(m: Store, all: seq<Id>, ids: seq<Id>, d: U16)
    requires TotOk(m, ids) && forall id :: id in ids ==> id in all
    ensures |Flat(m, ids)| + d <= 0xFFFF ==> TotBefore(AddTotals(m, all, d), ids, d)
    ensures ids != [] && |Flat(m, ids)| + d > 0xFFFF ==> !TotBefore(AddTotals(m, all, d), ids, d)
    decreases ids
  {
    hide Add16;
    var m' := AddTotals(m, all, d);
    FlatFrame(m, m', ids);
    if ids != [] {
      Add16Exact(m[ids[0]].totLen, d);
      AddTotalsTot(m, all, ids[1..], d);
    }
  }

  // ---------- Shortening a chain ----------

  /** The pbuf in which byte `n` falls, counting a full pbuf as containing its end. */
  function KeepIndex(m: Store, ids: seq<Id>, n: int): (k: nat)
    requires ids != []
    ensures k < |ids|
  {
    var len := |PayloadOf(m, ids[0])|;
    if |ids| == 1 || n <= len then 0 else 1 + KeepIndex(m, ids[1..], n - len)
  }

  /** The pbuf in which `n` bytes end: those in front of it are too few, and with it there are enough. */
  lemma {:induction false} KeepIndexExact(m: Store, ids: seq<Id>, n: nat)
    requires ids != [] && n <= |Flat(m, ids)|
    ensures var k := KeepIndex(m, ids, n);
            |Flat(m, ids[..k + 1])| >= n && (k > 0 ==> |Flat(m, ids[..k])| < n)
  {
    var k := KeepIndex(m, ids, n);
    assert ids[..k + 1][1..] == ids[1..][..k];
    if k > 0 {
      assert ids[..k][1..] == ids[1..][..k - 1];
      KeepIndexExact(m, ids[1..], n - |PayloadOf(m, ids[0])|);
    } else if |ids| == 1 {
      assert ids[..1] == ids;
    }
  }

  /** Subtraction of `s` as a 16-bit addition. */
  function Neg16(s: U16): U16 { (0x1_0000 - s) % 0x1_0000 }

  lemma Neg16Wraps(x: U16, s: U16)
    ensures Add16(x, Neg16(s)) == (x - s) % 0x1_0000
  {
  }

  lemma Neg16Subtracts(x: U16, s: U16)
    requires s <= x
    ensures Add16(x, Neg16(s)) == x - s
  {
  }

  lemma {:induction false} TotBeforeSub(m: Store, all: seq<Id>, ids: seq<Id>, n: nat, s: U16)
    requires TotBefore(m, ids, n) && s <= n && forall id :: id in ids ==> id in all
    ensures TotBefore(AddTotals(m, all, Neg16(s)), ids, n - s)
    decreases ids
  {
    hide Add16, Neg16;
    FlatFrame(m, AddTotals(m, all, Neg16(s)), ids);
    if ids != [] {
      Neg16Subtracts(m[ids[0]].totLen, s);
      TotBeforeSub(m, all, ids[1..], n, s);
    }
  }

  lemma {:induction false} ChainCut(m: Store, m': Store, x: Option<Id>, ids: seq<Id>, k: nat)
    requires IsChain(m, x, ids) && k < |ids|
    requires forall i :: 0 <= i < k ==> ids[i] in m && ids[i] in m' && m'[ids[i]].next == m[ids[i]].next
    requires ids[k] in m' && m'[ids[k]].next.None?
    ensures IsChain(m', x, ids[..k + 1])
    decreases k
  {
    var kept := ids[..k + 1];
    if k == 0 {
      assert kept[1..] == [];
    } else {
      assert kept[1..] == ids[1..][..k];
      ChainCut(m, m', m[ids[0]].next, ids[1..], k - 1);
    }
  }

  /** The store in which the chain `ids` ends with the first `r` bytes of pbuf `k`, `s` bytes shorter. */
  function Shortened(m: Store, ids: seq<Id>, k: nat, r: nat, s: U16): Store
    requires k < |ids| && ids[k] in m && r <= |m[ids[k]].payload|
  {
    AddTotals(m, ids[..k], Neg16(s))[ids[k] := Pbuf(None, m[ids[k]].payload[..r], r, m[ids[k]].ref)]
  }

  /** What pbuf_realloc does to each pbuf in front of the cut, to the one with the cut, and to no other. */
  lemma ShortenedEffect(m: Store, ids: seq<Id>, k: nat, r: nat, s: U16)
    requires k < |ids| && ids[k] in m && r <= |m[ids[k]].payload|
    ensures var m' := Shortened(m, ids, k, r, s);
            && m'[ids[k]] == Pbuf(None, m[ids[k]].payload[..r], r, m[ids[k]].ref)
            && (forall x :: x in m && x !in ids[..k] && x != ids[k] ==> x in m' && m'[x] == m[x])
            && (forall x :: x in m && x in ids[..k] && x != ids[k] ==>
                  && x in m' && m'[x].totLen == (m[x].totLen - s) % 0x1_0000
                  && m'[x].(totLen := m[x].totLen) == m[x])
  {
    hide Add16, Neg16;
    forall x: U16 ensures Add16(x, Neg16(s)) == (x - s) % 0x1_0000 { Neg16Wraps(x, s); }
  }

  lemma ShortenedLinks(m: Store, handles: multiset<Id>, rank: map<Id, nat>, x: Option<Id>, ids: seq<Id>, k: nat,
                       r: nat, s: U16)
    requires RefOk(m, handles) && Ranked(m, rank) && IsChain(m, x, ids)
    requires k < |ids| && ids[k] in m && r <= |m[ids[k]].payload|
    ensures var m', next := Shortened(m, ids, k, r, s), m[ids[k]].next;
            && m'.Keys == m.Keys && RefOk(m', handles + HandleOf(next)) && Ranked(m', rank)
            && IsChain(m', x, ids[..k + 1]) && IsChain(m', next, ids[k + 1..])
            && Unshared(m', ids[k + 1..]) == Unshared(m, ids[k + 1..])
  {
    hide RefOk, Ranked, Add16, Neg16;
    var q, m' := ids[k], Shortened(m, ids, k, r, s);
    var m1 := m[q := m[q].(next := None)];
    ChainDistinct(m, x, ids);
    ChainMembers(m, x, ids);
    ChainSuffix(m, x, ids, k);
    ChainSuffix(m, x, ids, k + 1);
    RefOkUnlink(m, handles, q);
    assert SameLinks(m1, m');
    RefOkSameLinks(m1, m', handles + HandleOf(m[q].next));
    RankedFewer(m, m', rank);
    ChainCut(m, m', x, ids, k);
    assert q !in ids[k + 1..];
    ChainFrame(m, m', m[q].next, ids[k + 1..]);
    UnsharedFrame(m, m', ids[k + 1..]);
  }

  /** The bytes of the shortened chain. */
  lemma ShortenedBytes(m: Store, x: Option<Id>, ids: seq<Id>, k: nat, r: nat, s: U16)
    requires IsChain(m, x, ids) && k < |ids| && ids[k] in m && r <= |m[ids[k]].payload|
    ensures |Flat(m, ids[..k])| + r <= |Flat(m, ids)|
    ensures Flat(Shortened(m, ids, k, r, s), ids[..k + 1]) == Flat(m, ids)[..|Flat(m, ids[..k])| + r]
  {
    hide Add16, Neg16, Flat, IsChain;
    var q, pre, m' := ids[k], ids[..k], Shortened(m, ids, k, r, s);
    ChainDistinct(m, x, ids);
    FlatSplit(m, ids, k);
    assert ids[..k + 1] == pre + [q];
    Single(m', q);
    FlatFrame(m, m', pre);
    FlatConcat(m', pre, [q]);
  }

  /** Totals that were right are right again when the chain is shortened by as much as they are. */
  lemma ShortenedTotals(m: Store, x: Option<Id>, ids: seq<Id>, k: nat, r: nat, s: U16)
    requires IsChain(m, x, ids) && TotOk(m, ids) && k < |ids| && ids[k] in m && r <= |m[ids[k]].payload|
    requires |Flat(m, ids[..k])| + r + s == |Flat(m, ids)|
    ensures TotOk(Shortened(m, ids, k, r, s), ids[..k + 1])
  {
    hide Add16, Neg16, TotOk, Flat, TotBefore, IsChain;
    var q, pre, m1, m' := ids[k], ids[..k], AddTotals(m, ids[..k], Neg16(s)), Shortened(m, ids, k, r, s);
    ChainDistinct(m, x, ids);
    ChainMembers(m, x, ids);
    assert q !in pre;
    TotAt(m, ids, k);
    assert ids == pre + ids[k..] && ids[..k + 1] == pre + [q];
    TotConcat(m, pre, ids[k..]);
    FlatConcat(m, pre, ids[k..]);
    TotBeforeSub(m, pre, pre, |Flat(m, ids[k..])|, s);
    TotBeforeFrame(m1, m', pre, r);
    Single(m', q);
    TotConcat(m', pre, [q]);
  }

  lemma Single(m: Store, q: Id)
    requires q in m
    ensures Flat(m, [q]) == m[q].payload && (TotOk(m, [q]) <==> m[q].totLen == |m[q].payload|)
  {
    assert [q][1..] == [];
  }

  /** Dropping a reference leaves everything outside the dropped chain as it is. */
  lemma DroppedElsewhere(m: Store, handles: multiset<Id>, y: Option<Id>, tail: seq<Id>, x: Option<Id>, ids: seq<Id>)
    requires RefOk(m, handles) && IsChain(m, y, tail) && IsChain(m, x, ids)
    requires forall id :: id in ids ==> id !in tail
    ensures var m' := Dropped(m, tail);
            && IsChain(m', x, ids) && Flat(m', ids) == Flat(m, ids) && (TotOk(m', ids) <==> TotOk(m, ids))
            && forall z :: z in m && z !in tail ==> z in m' && m'[z] == m[z]
  {
    ChainMembers(m, y, tail);
    ChainDistinct(m, y, tail);
    ChainMembers(m, x, ids);
    LiveCounts(m, handles);
    DroppedEffect(m, tail);
    ChainFrame(m, Dropped(m, tail), x, ids);
    TotSame(m, Dropped(m, tail), ids);
  }

  lemma LiveCounts(m: Store, handles: multiset<Id>)
    requires RefOk(m, handles)
    ensures forall x :: x in m ==> m[x].ref > 0
  {
    forall x | x in m ensures m[x].ref > 0 { assert CountOk(m, handles, x); }
  }

  // ---------- Removing bytes at the front ----------

  /** How many pbufs a header of `n` bytes takes whole. */
  function HeaderIndex(m: Store, ids: seq<Id>, n: nat): (k: nat)
    ensures k <= |ids|
  {
    if ids == [] || n == 0 || n < |PayloadOf(m, ids[0])| then 0
    else 1 + HeaderIndex(m, ids[1..], n - |PayloadOf(m, ids[0])|)
  }

  /** The pbufs that go are those needed for `n` bytes, and the next one has more than is left of them. */
  lemma {:induction false} HeaderIndexExact(m: Store, ids: seq<Id>, n: nat)
    ensures var k := HeaderIndex(m, ids, n);
            && |Flat(m, ids[..k])| <= n && (k > 0 ==> |Flat(m, ids[..k - 1])| < n)
            && (k < |ids| ==> n == |Flat(m, ids[..k])| || n < |Flat(m, ids[..k])| + |PayloadOf(m, ids[k])|)
  {
    var k := HeaderIndex(m, ids, n);
    if k > 0 {
      assert ids[..k][1..] == ids[1..][..k - 1];
      if k > 1 { assert ids[..k - 1][1..] == ids[1..][..k - 2]; }
      HeaderIndexExact(m, ids[1..], n - |PayloadOf(m, ids[0])|);
    }
  }

  /** The head `f` of a chain with its next pointer cleared and then one reference dropped. */
  function Popped(m: Store, f: Id): Store
    requires f in m
  {
    Dropped(m[f := m[f].(next := None)], [f])
  }

  lemma PopLinks(m: Store, handles: multiset<Id>, rank: map<Id, nat>, f: Id)
    requires RefOk(m, handles) && Ranked(m, rank) && f in handles && f in m
    ensures var m1, h := m[f := m[f].(next := None)], handles - multiset{f} + HandleOf(m[f].next);
            m1.Keys == m.Keys && RefOk(m1, h + multiset{f}) && Ranked(m1, rank) && IsChain(m1, Some(f), [f])
  {
    hide RefOk, Ranked;
    var m1 := m[f := m[f].(next := None)];
    RefOkUnlink(m, handles, f);
    assert handles - multiset{f} + HandleOf(m[f].next) + multiset{f} == handles + HandleOf(m[f].next);
    RankedFewer(m, m1, rank);
    assert m1.Keys == m.Keys && [f][1..] == [];
  }

  lemma DroppedOne(m: Store, f: Id)
    requires f in m
    ensures Dropped(m, [f]) == if m[f].ref > 1 then m[f := m[f].(ref := m[f].ref - 1)] else m - {f}
  {
    assert [f][1..] == [];
    assert Dropped(m - {f}, []) == m - {f};
  }

  /** A handle moves from `f` to its successor. */
  lemma HandleMoves(handles: multiset<Id>, f: Id, next: Option<Id>)
    ensures handles + HandleOf(Some(f)) - multiset{f} + HandleOf(next) == handles + HandleOf(next)
    ensures f in handles + HandleOf(Some(f))
  {
    assert handles + multiset{f} - multiset{f} == handles;
  }

  lemma PopBytes(m: Store, handles: multiset<Id>, f: Id, ids: seq<Id>)
    requires RefOk(m, handles) && IsChain(m, Some(f), ids)
    ensures var m', tail := Popped(m, f), ids[1..];
            && m[f].next == (if tail == [] then None else Some(tail[0]))
            && IsChain(m', m[f].next, tail) && (TotOk(m', tail) <==> TotOk(m, tail))
            && Flat(m, ids) == m[f].payload + Flat(m', tail)
            && forall z :: z in m && z != f ==> z in m' && m'[z] == m[z]
  {
    var m1, m', tail := m[f := m[f].(next := None)], Popped(m, f), ids[1..];
    assert [f][1..] == [];
    ChainMembers(m, Some(f), ids);
    ChainDistinct(m, Some(f), ids);
    DroppedOne(m1, f);
    ChainFrame(m, m', m[f].next, tail);
    TotSame(m, m', tail);
  }

  /** The head of a chain without its first `n` bytes; the total is counted down in 16 bits. */
  function Trimmed(m: Store, p: Id, n: U16): Store
    requires p in m && n <= |m[p].payload|
  {
    m[p := m[p].(payload := m[p].payload[n..], totLen := Add16(m[p].totLen, Neg16(n)))]
  }

  lemma TrimKeeps(m: Store, handles: multiset<Id>, rank: map<Id, nat>, p: Id, ids: seq<Id>, n: U16)
    requires RefOk(m, handles) && Ranked(m, rank) && IsChain(m, Some(p), ids) && n <= |m[p].payload|
    ensures var m' := Trimmed(m, p, n);
            && m'.Keys == m.Keys && RefOk(m', handles) && Ranked(m', rank)
            && IsChain(m', Some(p), ids) && (TotOk(m, ids) ==> TotOk(m', ids)) && Flat(m', ids) == Flat(m, ids)[n..]
  {
    hide RefOk, Ranked, Add16, Neg16;
    var m', tail := Trimmed(m, p, n), ids[1..];
    ChainMembers(m, Some(p), ids);
    ChainDistinct(m, Some(p), ids);
    assert SameLinks(m, m');
    RefOkSameLinks(m, m', handles);
    RankedFewer(m, m', rank);
    ChainFrame(m, m', Some(p), ids);
    TotSame(m, m', tail);
    assert Flat(m', ids) == m[p].payload[n..] + Flat(m, tail);
    if TotOk(m, ids) { Neg16Subtracts(m[p].totLen, n); }
  }

  // ---------- Allocation from the pool ----------

  /** How many pbufs hold `n` bytes, `cap` in the first and `room` in each further one. */
  function PbufsFor(n: nat, cap: nat, room: nat): nat
    requires cap > 0 && room > 0
    decreases n
  {
    if n <= cap then 1 else 1 + PbufsFor(n - cap, room, room)
  }

  /** A pool of `f` elements has enough exactly when `n` bytes fit into them. */
  lemma {:induction false} PbufsForExact(f: int, n: nat, cap: nat, room: nat)
    requires cap > 0 && room > 0
    ensures f >= PbufsFor(n, cap, room) <==> f > 0 && n <= cap + (f - 1) * room
    decreases n
  {
    if n > cap {
      PbufsForExact(f - 1, n - cap, room, room);
      assert room + (f - 1 - 1) * room == (f - 1) * room;
    } else if f > 1 {
      assert (f - 1) * room >= 0;
    }
  }

  /** The pbufs `ids` came from the pool, with one reference each; everything else is as before. */
  ghost predicate Taken(m0: Store, free0: set<Id>, m: Store, free: set<Id>, ids: seq<Id>) {
    && m0.Keys !! free0 && SetOf(ids) <= free0
    && m.Keys == m0.Keys + SetOf(ids) && free == free0 - SetOf(ids)
    && (forall z :: z in m0 ==> m[z] == m0[z])
    && (forall id :: id in SetOf(ids) ==> m[id].ref == 1)
  }

  lemma TakenStart(m: Store, free: set<Id>)
    requires m.Keys !! free
    ensures Taken(m, free, m, free, [])
  {
  }

  lemma TakenStep(m0: Store, free0: set<Id>, m: Store, free: set<Id>, ids: seq<Id>, q: Id, p: Pbuf)
    requires Taken(m0, free0, m, free, ids) && q in free && p.ref == 1
    ensures q !in m && Taken(m0, free0, m[q := p], free - {q}, ids + [q])
  {
    assert SetOf(ids + [q]) == SetOf(ids) + {q};
    assert m[q := p].Keys == m.Keys + {q};
  }

  lemma TakenLink(m0: Store, free0: set<Id>, m: Store, free: set<Id>, ids: seq<Id>, x: Id, next: Option<Id>)
    requires Taken(m0, free0, m, free, ids) && x in ids
    ensures x in m && Taken(m0, free0, m[x := m[x].(next := next)], free, ids)
  {
    assert x in SetOf(ids);
    UpdateKeys(m, x, m[x].(next := next));
  }

  /** A fresh pbuf `q` behind the chain `ids`, its total counting what is still to come. */
  lemma ChainGrows(m: Store, x: Option<Id>, ids: seq<Id>, rem: U16, q: Id, bs: Payload)
    requires IsChain(m, x, ids) && ids != [] && TotBefore(m, ids, rem) && q !in m && |bs| <= rem
    ensures ids[|ids| - 1] in m && m[ids[|ids| - 1]].next.None?
    ensures var m1, last := m[q := Pbuf(None, bs, rem, 1)], ids[|ids| - 1];
            var m' := m1[last := m1[last].(next := Some(q))];
            IsChain(m', x, ids + [q]) && TotBefore(m', ids + [q], rem - |bs|) &&
            Flat(m', ids + [q]) == Flat(m, ids) + bs
  {
    ChainMembers(m, x, ids);
    ChainDistinct(m, x, ids);
    ChainSuffix(m, x, ids, |ids| - 1);
    var m1, last := m[q := Pbuf(None, bs, rem, 1)], ids[|ids| - 1];
    var m' := m1[last := m1[last].(next := Some(q))];
    assert [q][1..] == [];
    ChainConcat(m, m', x, ids, q, [q]);
    TotBeforeFrame(m, m', ids, rem);
    FlatFrame(m, m', ids);
    Single(m', q);
    FlatConcat(m', ids, [q]);
    TotBeforeSnoc(m', ids, q, rem - |bs|);
  }

  lemma ChainBegins(m: Store, rem: U16, q: Id, bs: Payload)
    requires |bs| <= rem
    ensures var m' := m[q := Pbuf(None, bs, rem, 1)];
            IsChain(m', Some(q), [q]) && TotBefore(m', [q], rem - |bs|) && Flat(m', [q]) == bs
  {
    var m' := m[q := Pbuf(None, bs, rem, 1)];
    assert [q][1..] == [];
    Single(m', q);
  }

  lemma {:induction false} TotBeforeSnoc(m: Store, ids: seq<Id>, q: Id, n: nat)
    requires q in m && m[q].totLen == |m[q].payload| + n && TotBefore(m, ids, |m[q].payload| + n)
    ensures TotBefore(m, ids + [q], n)
  {
    Single(m, q);
    FlatConcat(m, ids, [q]);
    if ids == [] {
      assert ids + [q] == [q] && [q][1..] == [];
    } else {
      assert (ids + [q])[1..] == ids[1..] + [q];
      TotBeforeSnoc(m, ids[1..], q, n);
    }
  }

  lemma {:induction false} TotBeforeNothing(m: Store, ids: seq<Id>)
    requires TotBefore(m, ids, 0)
    ensures TotOk(m, ids)
  {
    if ids != [] { TotBeforeNothing(m, ids[1..]); }
  }

  /** Dropping the one reference to a chain that came from the pool puts everything back. */
  lemma TakenDropped(m0: Store, free0: set<Id>, m: Store, free: set<Id>, x: Option<Id>, ids: seq<Id>)
    requires Taken(m0, free0, m, free, ids) && IsChain(m, x, ids)
    ensures Dropped(m, ids) == m0 && (ids == [] ==> m == m0)
  {
    ChainDistinct(m, x, ids);
    assert forall id :: id in ids ==> id in SetOf(ids);
    AllReleased(m, ids);
    assert m - SetOf(ids) == m0;
  }

  lemma {:induction false} AllReleased(m: Store, ids: seq<Id>)
    requires forall i, j :: 0 <= i < j < |ids| ==> ids[i] != ids[j]
    requires forall id :: id in ids ==> id in m && m[id].ref == 1
    ensures Dropped(m, ids) == m - SetOf(ids)
    decreases ids
  {
    if ids != [] {
      AllReleased(m - {ids[0]}, ids[1..]);
      assert SetOf(ids) == {ids[0]} + SetOf(ids[1..]);
    }
  }

  lemma TakenCard(m0: Store, free0: set<Id>, m: Store, free: set<Id>, x: Option<Id>, ids: seq<Id>)
    requires Taken(m0, free0, m, free, ids) && IsChain(m, x, ids)
    ensures |free0| == |ids| + |free|
  {
    ChainDistinct(m, x, ids);
    DistinctCard(ids);
    CardDifference(free0, SetOf(ids));
  }

  lemma CardDifference(s: set<Id>, t: set<Id>)
    requires t <= s
    ensures |s| == |t| + |s - t|
  {
    assert s == t + (s - t);
  }

  lemma {:induction false} DistinctCard(ids: seq<Id>)
    requires forall i, j :: 0 <= i < j < |ids| ==> ids[i] != ids[j]
    ensures |SetOf(ids)| == |ids|
  {
    if ids != [] {
      DistinctCard(ids[1..]);
      assert SetOf(ids) == {ids[0]} + SetOf(ids[1..]);
    }
  }
}
