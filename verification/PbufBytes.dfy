/**
 Reading and writing the bytes of a pbuf chain. Each operation walks the chain; what it reads or writes
 is stated on the bytes of the whole chain laid end to end.
 */
module PbufBytes {
  import opened Machine
  import opened PbufStore
  import opened Pbuf

  // ---------- Walking ----------

  /** A walk over the chain `ids` stands at `q`, its `k`-th pbuf or its end. */
  ghost predicate At(m: Store, ids: seq<Id>, k: nat, q: Option<Id>) {
    k <= |ids| && IsChain(m, q, ids[k..])
  }

  lemma AtHead(m: Store, ids: seq<Id>, p: Option<Id>)
    requires IsChain(m, p, ids)
    ensures At(m, ids, 0, p) && Flat(m, ids[..0]) == []
  {
    assert ids[0..] == ids;
  }

  /** One step: the next pointer leads to the next index, past this pbuf's bytes. */
  lemma AtNext(m: Store, ids: seq<Id>, k: nat, q: Id)
    requires At(m, ids, k, Some(q))
    ensures k < |ids| && ids[k] == q && q in m && At(m, ids, k + 1, m[q].next)
    ensures Flat(m, ids[..k + 1]) == Flat(m, ids[..k]) + m[q].payload
    ensures Flat(m, ids) == Flat(m, ids[..k]) + m[q].payload + Flat(m, ids[k + 1..])
  {
    assert ids[k..][0] == ids[k] && ids[k..][1..] == ids[k + 1..];
    assert ids[..k + 1] == ids[..k] + [q];
    assert [q][1..] == [];
    FlatConcat(m, ids[..k], [q]);
    FlatSplit(m, ids, k);
  }

  lemma AtEnd(m: Store, ids: seq<Id>, k: nat)
    requires At(m, ids, k, None)
    ensures k == |ids| && Flat(m, ids[..k]) == Flat(m, ids)
  {
    assert ids[..|ids|] == ids;
  }

  /** pbuf_skip_const: the pbuf that holds the byte at `offset`, and where in it; or the end. */
  method Skip(m: Store, p: Option<Id>, offset: U16, ghost ids: seq<Id>) returns (q: Option<Id>, left: U16, ghost k: nat)
    requires IsChain(m, p, ids)
    ensures q.Some? <==> offset < |Flat(m, ids)|
    ensures At(m, ids, k, q) && |Flat(m, ids[..k])| + left == offset
    ensures q.Some? ==> q.value in m && left < |m[q.value].payload|
  {
    hide IsChain, Flat, At;
    q, left, k := p, offset, 0;
    AtHead(m, ids, p);
    while q.Some? && Length(m, q.value) <= left
      invariant k <= |ids| && At(m, ids, k, q) && |Flat(m, ids[..k])| + left == offset
      decreases |ids| - k
    {
      AtNext(m, ids, k, q.value);
      left := left - |m[q.value].payload|;
      q, k := m[q.value].next, k + 1;
    }
    if q.Some? {
      AtNext(m, ids, k, q.value);
    } else {
      AtEnd(m, ids, k);
    }
  }

  function Length(m: Store, q: Id): nat { |PayloadOf(m, q)| }

  /** pbuf_get_at: the byte at `offset`, zero beyond the end. */
  method GetAt(m: Store, p: Option<Id>, offset: U16, ghost ids: seq<Id>) returns (b: Byte)
    requires IsChain(m, p, ids)
    ensures b == if offset < |Flat(m, ids)| then Flat(m, ids)[offset] else 0
  {
    var q, left, k := Skip(m, p, offset, ids);
    if q.None? { return 0; }
    AtNext(m, ids, k, q.value);
    b := m[q.value].payload[left];
  }

  /** The byte at `offset + i` is found from the pbuf that holds `offset`, and comparing it extends the agreement. */
  lemma CompareStep(m: Store, ids: seq<Id>, k: nat, offset: nat, left: nat, i: nat, s: seq<Byte>)
    requires k <= |ids| && |Flat(m, ids[..k])| + left == offset && offset + |s| <= |Flat(m, ids)| && i < |s|
    requires Flat(m, ids)[offset..offset + i] == s[..i]
    ensures left + i < |Flat(m, ids[k..])| && Flat(m, ids)[offset + i] == Flat(m, ids[k..])[left + i]
    ensures Flat(m, ids)[offset + i] == s[i] ==> Flat(m, ids)[offset..offset + i + 1] == s[..i + 1]
  {
    hide Flat;
    assert ids[..k] + ids[k..] == ids;
    FlatConcat(m, ids[..k], ids[k..]);
    var flat := Flat(m, ids);
    assert flat[offset..offset + i + 1] == flat[offset..offset + i] + [flat[offset + i]];
    assert s[..i + 1] == s[..i] + [s[i]];
  }

  /**
   pbuf_memcmp: 0xFFFF when the chain is too short for the comparison, zero when the bytes agree, and
   otherwise one more than the index of the first difference.
   */
  method Memcmp(m: Store, p: Id, offset: U16, s: Payload, ghost ids: seq<Id>) returns (r: U16)
    requires IsChain(m, Some(p), ids) && TotOk(m, ids)
    ensures |Flat(m, ids)| < offset + |s| ==> r == 0xFFFF
    ensures |Flat(m, ids)| >= offset + |s| ==> (r == 0 <==> Flat(m, ids)[offset..offset + |s|] == s)
    ensures |Flat(m, ids)| >= offset + |s| && r > 0 ==>
              && r <= |s| && Flat(m, ids)[offset + r - 1] != s[r - 1]
              && Flat(m, ids)[offset..offset + r - 1] == s[..r - 1]
    ensures |s| < 0xFFFF ==> (r == 0xFFFF <==> |Flat(m, ids)| < offset + |s|)
  {
    hide IsChain, Flat, At;
    ChainHead(m, p, ids);
    TotAt(m, ids, 0);
    assert ids[0..] == ids;
    if m[p].totLen < offset + |s| { return 0xFFFF; }
    var q, start, k := Skip(m, Some(p), offset, ids);
    AtChain(m, ids, k, q);
    var i := 0;
    while i < |s|
      invariant 0 <= i <= |s|
      invariant Flat(m, ids)[offset..offset + i] == s[..i]
    {
      CompareStep(m, ids, k, offset, start, i, s);
      var a := GetAt(m, q, start + i, ids[k..]);
      if a != s[i] {
        Differs(Flat(m, ids), offset, s, i);
        return i + 1;
      }
      i := i + 1;
    }
    assert s[..|s|] == s;
    r := 0;
  }

  lemma Differs(flat: seq<Byte>, offset: nat, s: seq<Byte>, i: nat)
    requires i < |s| && offset + |s| <= |flat| && flat[offset + i] != s[i]
    ensures flat[offset..offset + |s|] != s
  {
    assert flat[offset..offset + |s|][i] == flat[offset + i];
  }

  lemma AtChain(m: Store, ids: seq<Id>, k: nat, q: Option<Id>)
    requires At(m, ids, k, q)
    ensures k <= |ids| && IsChain(m, q, ids[k..])
  {
  }

  predicate Occurs(flat: seq<Byte>, s: seq<Byte>, i: nat) {
    i + |s| <= |flat| && flat[i..i + |s|] == s
  }

  /** pbuf_memfind: the first place at or after `start` where `s` occurs, or 0xFFFF. */
  method Memfind(m: Store, p: Id, s: Payload, start: U16, ghost ids: seq<Id>) returns (r: U16)
    requires IsChain(m, Some(p), ids) && TotOk(m, ids)
    ensures r < 0xFFFF ==> start <= r && Occurs(Flat(m, ids), s, r)
    ensures forall i :: start <= i < r ==> !Occurs(Flat(m, ids), s, i)
    ensures |Flat(m, ids)| <= 0xFFFE ==> (r == 0xFFFF <==> forall i :: start <= i ==> !Occurs(Flat(m, ids), s, i))
  {
    hide IsChain, Flat, At;
    ChainHead(m, p, ids);
    TotAt(m, ids, 0);
    assert ids[0..] == ids;
    if m[p].totLen < |s| + start { return 0xFFFF; }
    var last, i: U16 := m[p].totLen - |s|, start;
    while i <= last
      invariant start <= i <= last + 1
      invariant forall j :: start <= j < i ==> !Occurs(Flat(m, ids), s, j)
    {
      var plus := Memcmp(m, p, i, s, ids);
      if plus == 0 { return i; }
      i := (i + 1) % 0x1_0000;
    }
    r := 0xFFFF;
  }

  // ---------- Writing ----------

  /** `data` written over `s` at `at`. */
  function Over<T>(s: seq<T>, at: nat, data: seq<T>): (r: seq<T>)
    requires at + |data| <= |s|
    ensures |r| == |s|
  {
    s[..at] + data + s[at + |data|..]
  }

  /** Two stores that differ in payload bytes only. */
  ghost predicate SameShape(m: Store, m': Store) {
    m.Keys == m'.Keys && forall x :: x in m ==> SamePbuf(m[x], m'[x])
  }

  predicate SamePbuf(p: PbufStore.Pbuf, q: PbufStore.Pbuf) {
    q.next == p.next && q.ref == p.ref && q.totLen == p.totLen && |q.payload| == |p.payload|
  }

  lemma {:induction false} ShapeLength(m: Store, m': Store, ids: seq<Id>)
    requires SameShape(m, m')
    ensures |Flat(m', ids)| == |Flat(m, ids)|
  {
    if ids != [] { ShapeLength(m, m', ids[1..]); }
  }

  /** Counters, ranks, chains and total lengths do not depend on the bytes. */
  lemma ShapeKeeps(m: Store, m': Store, handles: multiset<Id>, rank: map<Id, nat>)
    requires RefOk(m, handles) && Ranked(m, rank) && SameShape(m, m')
    ensures RefOk(m', handles) && Ranked(m', rank)
  {
    RefOkSameLinks(m, m', handles);
    RankedFewer(m, m', rank);
  }

  lemma {:induction false} ShapeChain(m: Store, m': Store, x: Option<Id>, ids: seq<Id>)
    requires IsChain(m, x, ids) && TotOk(m, ids) && SameShape(m, m')
    ensures IsChain(m', x, ids) && TotOk(m', ids)
    decreases ids
  {
    if ids != [] {
      ShapeLength(m, m', ids);
      ShapeChain(m, m', m[ids[0]].next, ids[1..]);
    }
  }

  /** The chain `ids` has `data` written over its bytes at `at`, and nothing else has changed. */
  ghost predicate Patched(m0: Store, m: Store, ids: seq<Id>, at: nat, data: seq<Byte>) {
    && SameShape(m0, m) && (forall x :: x in m0 && x !in ids ==> m[x] == m0[x])
    && at + |data| <= |Flat(m0, ids)| && Flat(m, ids) == Over(Flat(m0, ids), at, data)
  }

  lemma PatchNothing(m: Store, ids: seq<Id>, at: nat)
    requires at <= |Flat(m, ids)|
    ensures Patched(m, m, ids, at, [])
  {
  }

  function Written(m: Store, x: Id, o: nat, bs: seq<Byte>): Store
    requires x in m && o + |bs| <= |m[x].payload|
  {
    m[x := m[x].(payload := Over(m[x].payload, o, bs))]
  }

  /** Writing into one pbuf of a chain writes the same bytes at their place in the whole. */
  lemma WrittenFlat(m: Store, p: Option<Id>, ids: seq<Id>, i: nat, o: nat, bs: seq<Byte>)
    requires IsChain(m, p, ids) && i < |ids| && ids[i] in m && o + |bs| <= |m[ids[i]].payload|
    ensures |Flat(m, ids[..i])| + o + |bs| <= |Flat(m, ids)|
    ensures Flat(Written(m, ids[i], o, bs), ids) == Over(Flat(m, ids), |Flat(m, ids[..i])| + o, bs)
  {
    hide IsChain, Flat, Over;
    var m', x := Written(m, ids[i], o, bs), ids[i];
    ChainDistinct(m, p, ids);
    FlatFrame(m, m', ids[..i]);
    FlatFrame(m, m', ids[i + 1..]);
    FlatSplit(m, ids, i);
    FlatSplit(m', ids, i);
    OverMiddle(Flat(m, ids[..i]), m[x].payload, Flat(m, ids[i + 1..]), o, bs);
  }

  lemma OverMiddle(a: seq<Byte>, s: seq<Byte>, c: seq<Byte>, o: nat, bs: seq<Byte>)
    requires o + |bs| <= |s|
    ensures a + Over(s, o, bs) + c == Over(a + s + c, |a| + o, bs)
  {
  }

  lemma OverNext(s: seq<Byte>, at: nat, x: seq<Byte>, y: seq<Byte>)
    requires at + |x| + |y| <= |s|
    ensures Over(Over(s, at, x), at + |x|, y) == Over(s, at, x + y)
  {
  }

  /** The store after a write still has the chain, with its total lengths, and is as valid as before. */
  lemma PatchedKeeps(m0: Store, m: Store, p: Option<Id>, ids: seq<Id>, at: nat, data: seq<Byte>,
                     handles: multiset<Id>, rank: map<Id, nat>)
    requires Patched(m0, m, ids, at, data) && IsChain(m0, p, ids) && TotOk(m0, ids) && RefOk(m0, handles) &&
             Ranked(m0, rank)
    ensures IsChain(m, p, ids) && TotOk(m, ids) && RefOk(m, handles) && Ranked(m, rank) && m.Keys == m0.Keys
  {
    hide RefOk, Ranked, IsChain, TotOk, Flat;
    ShapeKeeps(m0, m, handles, rank);
    ShapeChain(m0, m, p, ids);
  }

  /** In the middle of writing: `data` is written at `at`, and the walk has come to byte `o` of `q`, the `k`-th pbuf. */
  ghost predicate Writing(m0: Store, m: Store, p: Option<Id>, ids: seq<Id>, at: nat, data: seq<Byte>,
                          k: nat, q: Option<Id>, o: nat) {
    && Patched(m0, m, ids, at, data) && IsChain(m0, p, ids) && TotOk(m0, ids)
    && At(m0, ids, k, q) && |Flat(m0, ids[..k])| + o == at + |data|
  }

  lemma WritingStarts(m: Store, p: Option<Id>, ids: seq<Id>, k: nat, q: Option<Id>, o: nat)
    requires IsChain(m, p, ids) && TotOk(m, ids) && At(m, ids, k, q) && |Flat(m, ids[..k])| + o <= |Flat(m, ids)|
    ensures Writing(m, m, p, ids, |Flat(m, ids[..k])| + o, [], k, q, o)
  {
    PatchNothing(m, ids, |Flat(m, ids[..k])| + o);
  }

  /** While bytes are left, the walk is at a pbuf; it has the links and the length it had before. */
  lemma WritingAt(m0: Store, m: Store, p: Option<Id>, ids: seq<Id>, at: nat, data: seq<Byte>, k: nat, q: Option<Id>,
                  o: nat)
    requires Writing(m0, m, p, ids, at, data, k, q, o)
    ensures Patched(m0, m, ids, at, data)
    ensures q.None? ==> at + |data| >= |Flat(m0, ids)|
    ensures q.Some? ==> k < |ids| && q.value == ids[k] && q.value in m && q.value in m0
    ensures q.Some? ==> SamePbuf(m0[q.value], m[q.value])
    ensures q.Some? ==> |Flat(m0, ids[..k])| + |m[q.value].payload| + |Flat(m0, ids[k + 1..])| == |Flat(m0, ids)|
  {
    hide IsChain, TotOk, Flat, At;
    match q
    case None => AtEnd(m0, ids, k);
    case Some(x) => AtNext(m0, ids, k, x);
  }

  lemma WritingNext(m0: Store, m: Store, p: Option<Id>, ids: seq<Id>, at: nat, data: seq<Byte>, k: nat, q: Id)
    requires q in m && Writing(m0, m, p, ids, at, data, k, Some(q), |m[q].payload|)
    ensures Writing(m0, m, p, ids, at, data, k + 1, m[q].next, 0)
  {
    hide IsChain, TotOk, Flat;
    AtNext(m0, ids, k, q);
  }

  /** A further write right behind the bytes written so far. */
  lemma WritingMore(m0: Store, m: Store, p: Option<Id>, ids: seq<Id>, at: nat, data: seq<Byte>,
                    k: nat, q: Id, o: nat, bs: seq<Byte>)
    requires Writing(m0, m, p, ids, at, data, k, Some(q), o) && q in m && o + |bs| <= |m[q].payload|
    ensures Writing(m0, Written(m, q, o, bs), p, ids, at, data + bs, k, Some(q), o + |bs|)
  {
    hide IsChain, TotOk, Flat;
    AtNext(m0, ids, k, q);
    ShapeLength(m0, m, ids[..k]);
    ShapeChain(m0, m, p, ids);
    WrittenFlat(m, p, ids, k, o, bs);
    OverNext(Flat(m0, ids), at, data, bs);
  }

  /** Results; a failed assertion of this port never returns. */
  datatype Err = Ok | ErrMem | ErrArg | ErrVal | Halted

  /** pbuf_take: `data` is written over the start of the chain, if the chain can hold it. */
  method Take(pool: PbufPool, p: Option<Id>, data: Payload, ghost ids: seq<Id>) returns (r: Err)
    requires pool.Valid() && IsChain(pool.mem, p, ids) && TotOk(pool.mem, ids)
    modifies pool`mem
    ensures pool.Valid() && IsChain(pool.mem, p, ids) && TotOk(pool.mem, ids)
    ensures r == if p.None? then ErrArg else if |Flat(old(pool.mem), ids)| < |data| then ErrMem else Ok
    ensures if r.Ok? then Patched(old(pool.mem), pool.mem, ids, 0, data) else pool.mem == old(pool.mem)
    ensures r.Ok? ==> Flat(pool.mem, ids) == data + Flat(old(pool.mem), ids)[|data|..]
  {
    hide RefOk, Ranked, IsChain, TotOk, Flat, At, Patched, Over, Writing;
    ghost var m0 := pool.mem;
    if p.None? { return ErrArg; }
    ChainHead(m0, p.value, ids);
    TotAt(m0, ids, 0);
    assert ids[0..] == ids;
    if pool.mem[p.value].totLen < |data| { return ErrMem; }
    var q, n := p, 0;
    ghost var k := 0;
    AtHead(m0, ids, p);
    WritingStarts(m0, p, ids, 0, p, 0);
    assert data[..0] == [];
    WritingAt(m0, pool.mem, p, ids, 0, data[..0], 0, p, 0);
    while n < |data|
      invariant n <= |data| && Patched(m0, pool.mem, ids, 0, data[..n])
      invariant n < |data| ==> k <= |ids| && Writing(m0, pool.mem, p, ids, 0, data[..n], k, q, 0)
      decreases |ids| - k, |data| - n
    {
      WritingAt(m0, pool.mem, p, ids, 0, data[..n], k, q, 0);
      var x := q.value;
      var len := |pool.mem[x].payload|;
      var part := if |data| - n > len then len else |data| - n;
      WritingMore(m0, pool.mem, p, ids, 0, data[..n], k, x, 0, data[n..n + part]);
      assert data[..n] + data[n..n + part] == data[..n + part];
      pool.mem := Written(pool.mem, x, 0, data[n..n + part]);
      n := n + part;
      WritingAt(m0, pool.mem, p, ids, 0, data[..n], k, q, part);
      if n < |data| {
        WritingNext(m0, pool.mem, p, ids, 0, data[..n], k, x);
      }
      q, k := pool.mem[x].next, k + 1;
    }
    PatchedKeeps(m0, pool.mem, p, ids, 0, data[..n], pool.handles, pool.rank);
    assert data[..n] == data;
    PatchedBytes(m0, pool.mem, ids, 0, data);
    return Ok;
  }

  lemma PatchedBytes(m0: Store, m: Store, ids: seq<Id>, at: nat, data: seq<Byte>)
    requires Patched(m0, m, ids, at, data)
    ensures at + |data| <= |Flat(m0, ids)|
    ensures Flat(m, ids) == Flat(m0, ids)[..at] + data + Flat(m0, ids)[at + |data|..]
    ensures at == 0 ==> Flat(m, ids) == data + Flat(m0, ids)[|data|..]
  {
    hide Flat, SameShape;
  }

  lemma PatchFrame(m0: Store, m1: Store, m2: Store, p: Option<Id>, ids: seq<Id>, k: nat, at: nat, x: seq<Byte>,
                   y: seq<Byte>)
    requires IsChain(m0, p, ids) && k <= |ids| && Patched(m0, m1, ids, at, x) && Patched(m1, m2, ids[k..], 0, y)
    ensures SameShape(m0, m2) && (forall z :: z in m0 && z !in ids ==> m2[z] == m0[z])
    ensures Flat(m2, ids[..k]) == Flat(m1, ids[..k])
  {
    hide IsChain, Flat, Over;
    ChainDistinct(m0, p, ids);
    ChainMembers(m0, p, ids);
    FlatFrame(m1, m2, ids[..k]);
  }

  /** A write that goes on over the rest of the chain. */
  lemma PatchSuffix(m0: Store, m1: Store, m2: Store, p: Option<Id>, ids: seq<Id>, k: nat, at: nat, x: seq<Byte>,
                    y: seq<Byte>)
    requires IsChain(m0, p, ids) && k <= |ids| && Patched(m0, m1, ids, at, x) && Patched(m1, m2, ids[k..], 0, y)
    requires |Flat(m0, ids[..k])| == at + |x|
    ensures Patched(m0, m2, ids, at, x + y)
  {
    hide IsChain, Flat, Over, SameShape;
    var a, b := ids[..k], ids[k..];
    assert a + b == ids;
    PatchFrame(m0, m1, m2, p, ids, k, at, x, y);
    FlatConcat(m1, a, b);
    FlatConcat(m2, a, b);
    ShapeLength(m0, m1, a);
    ShapeLength(m0, m1, ids);
    OverBehind(Flat(m1, a), Flat(m1, b), y);
    OverNext(Flat(m0, ids), at, x, y);
  }

  lemma OverBehind(a: seq<Byte>, b: seq<Byte>, y: seq<Byte>)
    requires |y| <= |b|
    ensures Over(a + b, |a|, y) == a + Over(b, 0, y)
  {
  }

  /** What is left of a chain from its `k`-th pbuf on. */
  lemma AtRest(m: Store, ids: seq<Id>, k: nat, q: Id)
    requires At(m, ids, k, Some(q)) && TotOk(m, ids)
    ensures k < |ids| && q in m && m[q].totLen == |Flat(m, ids)| - |Flat(m, ids[..k])|
    ensures IsChain(m, m[q].next, ids[k + 1..]) && TotOk(m, ids[k + 1..])
    ensures |Flat(m, ids[k + 1..])| == m[q].totLen - |m[q].payload|
  {
    hide IsChain, Flat, TotOk;
    AtNext(m, ids, k, q);
    AtChain(m, ids, k + 1, m[q].next);
    TotAt(m, ids, k);
    TotAt(m, ids, k + 1);
    FlatSplit(m, ids, k);
  }

  /** pbuf_take_at: `data` is written at `offset`, if `offset` is inside the chain and `data` fits behind it. */
  method TakeAt(pool: PbufPool, p: Option<Id>, data: Payload, offset: U16, ghost ids: seq<Id>) returns (r: Err)
    requires pool.Valid() && IsChain(pool.mem, p, ids) && TotOk(pool.mem, ids)
    modifies pool`mem
    ensures pool.Valid() && IsChain(pool.mem, p, ids) && TotOk(pool.mem, ids)
    ensures var n := |Flat(old(pool.mem), ids)|; r == if offset < n && offset + |data| <= n then Ok else ErrMem
    ensures if r.Ok? then Patched(old(pool.mem), pool.mem, ids, offset, data) else pool.mem == old(pool.mem)
    ensures r.Ok? ==>
              var bs := Flat(old(pool.mem), ids);
              Flat(pool.mem, ids) == bs[..offset] + data + bs[offset + |data|..]
  {
    hide RefOk, Ranked, IsChain, TotOk, Flat, At, Patched, Over, Writing;
    ghost var m0 := pool.mem;
    var q, target, k := Skip(pool.mem, p, offset, ids);
    if q.None? { return ErrMem; }
    var x := q.value;
    AtRest(m0, ids, k, x);
    if pool.mem[x].totLen < target + |data| { return ErrMem; }
    var len := |pool.mem[x].payload|;
    var first := if |data| < len - target then |data| else len - target;
    WritingStarts(m0, p, ids, k, q, target);
    WritingMore(m0, m0, p, ids, offset, [], k, x, target, data[..first]);
    assert [] + data[..first] == data[..first];
    pool.mem := Written(pool.mem, x, target, data[..first]);
    ghost var m1 := pool.mem;
    WritingAt(m0, m1, p, ids, offset, data[..first], k, q, target + first);
    PatchedKeeps(m0, m1, p, ids, offset, data[..first], pool.handles, pool.rank);
    if first < |data| {
      RestAgain(m0, m1, p, ids, offset, data[..first], k, x);
      r := Take(pool, pool.mem[x].next, data[first..], ids[k + 1..]);
      PatchSuffix(m0, m1, pool.mem, p, ids, k + 1, offset, data[..first], data[first..]);
      assert data[..first] + data[first..] == data;
      PatchedKeeps(m0, pool.mem, p, ids, offset, data, pool.handles, pool.rank);
    } else {
      assert data[..first] == data;
      r := Ok;
    }
    PatchedBytes(m0, pool.mem, ids, offset, data);
  }

  /** Writing up to the end of one pbuf leaves the rest of the chain to write to. */
  lemma RestAgain(m0: Store, m: Store, p: Option<Id>, ids: seq<Id>, at: nat, data: seq<Byte>, k: nat, q: Id)
    requires q in m && Writing(m0, m, p, ids, at, data, k, Some(q), |m[q].payload|)
    ensures k < |ids| && IsChain(m, m[q].next, ids[k + 1..]) && TotOk(m, ids[k + 1..])
    ensures |Flat(m, ids[k + 1..])| == |Flat(m0, ids)| - at - |data| && |Flat(m0, ids[..k + 1])| == at + |data|
    ensures at + |data| < |Flat(m0, ids)| ==> m[q].next.Some?
  {
    hide IsChain, TotOk, Flat, Patched;
    WritingAt(m0, m, p, ids, at, data, k, Some(q), |m[q].payload|);
    AtRest(m0, ids, k, q);
    AtNext(m0, ids, k, q);
    PatchedShape(m0, m, ids, at, data);
    ShapeChain(m0, m, m0[q].next, ids[k + 1..]);
    ShapeLength(m0, m, ids[k + 1..]);
    if m[q].next.None? {
      AtEnd(m0, ids, k + 1);
      assert ids[k + 1..] == [];
    }
  }

  lemma PatchedShape(m0: Store, m: Store, ids: seq<Id>, at: nat, data: seq<Byte>)
    requires Patched(m0, m, ids, at, data)
    ensures SameShape(m0, m)
  {
  }

  function Min(x: nat, y: nat): nat { if x < y then x else y }

  /** memcpy into the caller's buffer. */
  method CopyIn(data: array<Byte>, at: nat, bs: seq<Byte>)
    requires at + |bs| <= data.Length
    modifies data
    ensures data[..] == Over(old(data[..]), at, bs)
  {
    forall i | 0 <= i < |bs| { data[at + i] := bs[i]; }
  }

  /** The bytes that a copy of `n` bytes from `offset` finds. */
  function Slice(flat: seq<Byte>, offset: nat, n: nat): seq<Byte> {
    if offset >= |flat| then [] else flat[offset..Min(offset + n, |flat|)]
  }

  lemma SliceMore(a: seq<Byte>, b: seq<Byte>, c: seq<Byte>, offset: nat, copied: nat, off: nat, part: nat)
    requires |a| + off == offset + copied && off + part <= |b| && |Slice(a + b + c, offset, copied)| == copied
    requires off > 0 ==> copied == 0
    ensures Slice(a + b + c, offset, copied) + b[off..off + part] == Slice(a + b + c, offset, copied + part)
  {
    var flat := a + b + c;
    if part > 0 {
      assert flat[offset..offset + copied] == Slice(flat, offset, copied);
      assert flat[offset + copied..offset + copied + part] == b[off..off + part];
    }
  }

  /** pbuf_copy_partial: at most `len` bytes from `offset` on go to the buffer; beyond the end there are none. */
  method CopyPartial(m: Store, p: Option<Id>, data: array<Byte>, len: U16, offset: U16,
                     ghost ids: seq<Id>) returns (copied: U16)
    requires IsChain(m, p, ids) && data.Length >= len
    modifies data
    ensures copied == |Slice(Flat(m, ids), offset, len)| <= len
    ensures data[..] == Over(old(data[..]), 0, Slice(Flat(m, ids), offset, len))
    ensures var n := |Flat(m, ids)|; copied == if offset >= n then 0 else if offset + len <= n then len else n - offset
    ensures copied > 0 ==> data[..copied] == Flat(m, ids)[offset..offset + copied]
    ensures data[copied..] == old(data[copied..])
  {
    hide IsChain, Flat, At, Over, Slice;
    ghost var flat, was := Flat(m, ids), data[..];
    var q, rest: U16, off: U16 := p, len, offset;
    ghost var k := 0;
    copied := 0;
    AtHead(m, ids, p);
    SliceStarts(flat, offset, was);
    while rest != 0 && q.Some?
      invariant k <= |ids| && At(m, ids, k, q) && copied + rest == len && (off > 0 ==> copied == 0)
      invariant rest == 0 || |Flat(m, ids[..k])| + off == offset + copied
      invariant |Slice(flat, offset, copied)| == copied && data[..] == Over(was, 0, Slice(flat, offset, copied))
      decreases |ids| - k
    {
      AtNext(m, ids, k, q.value);
      var bs := m[q.value].payload;
      if off != 0 && off >= |bs| {
        off := off - |bs|;
      } else {
        var part := if |bs| - off > rest then rest else |bs| - off;
        CopyIn(data, copied, bs[off..off + part]);
        SliceMore(Flat(m, ids[..k]), bs, Flat(m, ids[k + 1..]), offset, copied, off, part);
        OverNext(was, 0, Slice(flat, offset, copied), bs[off..off + part]);
        copied, rest, off := copied + part, rest - part, 0;
      }
      q, k := m[q.value].next, k + 1;
    }
    if rest != 0 {
      AtEnd(m, ids, k);
      SliceEnds(flat, offset, copied, len);
    }
    SliceOver(flat, offset, len, was);
  }

  lemma SliceOver(flat: seq<Byte>, offset: nat, n: nat, was: seq<Byte>)
    requires |Slice(flat, offset, n)| <= |was|
    ensures var s := Slice(flat, offset, n);
            && |s| == (if offset >= |flat| then 0 else if offset + n <= |flat| then n else |flat| - offset)
            && Over(was, 0, s)[..|s|] == s && Over(was, 0, s)[|s|..] == was[|s|..]
            && (s != [] ==> s == flat[offset..offset + |s|])
  {
  }

  lemma SliceStarts(flat: seq<Byte>, offset: nat, was: seq<Byte>)
    ensures Slice(flat, offset, 0) == [] && Over(was, 0, []) == was
  {
  }

  /** Past the end there is nothing more to find. */
  lemma SliceEnds(flat: seq<Byte>, offset: nat, copied: nat, n: nat)
    requires copied <= n && |flat| <= offset + copied
    ensures Slice(flat, offset, n) == Slice(flat, offset, copied)
  {
  }

  // ---------- Chain to chain ----------

  /** size_t arithmetic of the 32-bit target. */
  function SizeSub(x: nat, y: nat): nat { (x - y) % 0x1_0000_0000 }

  /** How much one round copies, with `left` bytes to go. */
  function RoundLength(lenTo: nat, ot: nat, lenFrom: nat, of: nat, left: nat): nat {
    var room, avail := SizeSub(lenTo, ot), SizeSub(lenFrom, of);
    Min(left, if room >= avail then avail else room)
  }

  /** A round stays inside the target pbuf exactly when it starts inside. */
  lemma RoundStays(lenTo: U16, ot: U16, lenFrom: U16, of: nat, left: U16)
    requires of <= lenFrom
    ensures var n := RoundLength(lenTo, ot, lenFrom, of, left);
            && (ot + n <= lenTo <==> ot <= lenTo)
            && (ot <= lenTo ==> n == Min(left, Min(lenTo - ot, lenFrom - of)))
  {
  }

  /** The bytes end with the `j`-th pbuf although the chain goes on: what the code takes for a packet queue. */
  predicate QueueAt(m: Store, ids: seq<Id>, j: nat) {
    j + 1 < |ids| && Flat(m, ids[j + 1..]) == []
  }

  /** A walk that passes `c` bytes, and stops as soon as it can, gets to the `j`-th pbuf. */
  predicate Reached(m: Store, ids: seq<Id>, c: nat, j: nat) {
    1 <= j < |ids| && |Flat(m, ids[..j])| <= c && (j == 1 || |Flat(m, ids[..j - 1])| < c)
  }

  /** The walk rests on such a pbuf; on the first one, only if the first round left some of it. */
  ghost predicate Stuck(m: Store, ids: seq<Id>, c: nat, first: bool) {
    (first && QueueAt(m, ids, 0)) || exists j: nat :: Reached(m, ids, c, j) && QueueAt(m, ids, j)
  }

  /** Where a walk is after passing `e` of `c` bytes: byte `o` of the `i`-th pbuf, with no queue met. */
  ghost predicate Rested(m: Store, ids: seq<Id>, c: nat, e: nat, i: nat, o: nat, first: bool) {
    && i <= |ids| && |Flat(m, ids[..i])| + o == e <= c
    && (i < |ids| ==> o < Length(m, ids[i]) || (i >= 1 && o == 0))
    && (1 <= i < |ids| ==> Reached(m, ids, c, i)) && (i == 0 ==> first)
    && (forall j :: 1 <= j <= i ==> !QueueAt(m, ids, j)) && (first ==> !QueueAt(m, ids, 0))
  }

  ghost predicate Place(m: Store, ids: seq<Id>, c: nat, e: nat, i: nat, o: nat, first: bool, started: bool) {
    if started then Rested(m, ids, c, e, i, o, first)
    else i == 0 && ids != [] && o == e <= c && o <= Length(m, ids[0])
  }

  lemma FlatNode(m: Store, ids: seq<Id>, i: nat)
    requires i < |ids|
    ensures |Flat(m, ids[..i + 1])| == |Flat(m, ids[..i])| + Length(m, ids[i])
  {
    assert ids[..i + 1] == ids[..i] + [ids[i]];
    assert [ids[i]][1..] == [];
    FlatConcat(m, ids[..i], [ids[i]]);
  }

  lemma FlatGrows(m: Store, ids: seq<Id>, i: nat, j: nat)
    requires i <= j <= |ids|
    ensures |Flat(m, ids[..i])| <= |Flat(m, ids[..j])|
  {
    assert ids[..j] == ids[..i] + ids[i..j];
    FlatConcat(m, ids[..i], ids[i..j]);
  }

  /** A round takes the walk on, or it meets a queue and the walk is one that gets stuck. */
  lemma PlaceStep(m: Store, ids: seq<Id>, c: nat, e: nat, i: nat, o: nat, first: bool, started: bool, n: nat)
    requires Place(m, ids, c, e, i, o, first, started) && i < |ids| && e + n <= c && o + n <= Length(m, ids[i])
    requires if started then e < c else first <==> o + n < Length(m, ids[0])
    ensures var done := o + n == Length(m, ids[i]);
            var i', o' := if done then i + 1 else i, if done then 0 else o + n;
            if QueueAt(m, ids, i') then Stuck(m, ids, c, first) else Place(m, ids, c, e + n, i', o', first, true)
  {
    hide Flat;
    FlatNode(m, ids, i);
    assert ids[..0] == [];
    FlatNone(m, ids[..0]);
  }

  /** A walk to the end has met every queue on its way. */
  lemma PlaceEnd(m: Store, ids: seq<Id>, c: nat, i: nat, o: nat, first: bool)
    requires Place(m, ids, c, c, i, o, first, true)
    ensures !Stuck(m, ids, c, first)
  {
    hide Flat, QueueAt;
    forall j: nat | Reached(m, ids, c, j) ensures !QueueAt(m, ids, j) {
      if j > i {
        FlatNode(m, ids, i);
        FlatGrows(m, ids, i + 1, j);
        FlatGrows(m, ids, i, j - 1);
      }
    }
  }

  /** The copy in progress: `d` bytes are over, and both walks have come to the byte behind them. */
  ghost predicate Copying(m0: Store, m: Store, to: Option<Id>, a: seq<Id>, from: Option<Id>, b: seq<Id>, offset: nat,
                          d: nat, i: nat, pt: Option<Id>, ot: nat, k: nat, pf: Option<Id>, of: nat) {
    && IsChain(m0, from, b) && TotOk(m0, b) && (forall x :: x in a ==> x !in b)
    && At(m0, b, k, pf) && |Flat(m0, b[..k])| + of == d <= |Flat(m0, b)|
    && Writing(m0, m, to, a, offset, Flat(m0, b)[..d], i, pt, ot)
  }

  lemma CopyingStarts(m: Store, to: Option<Id>, a: seq<Id>, from: Option<Id>, b: seq<Id>, offset: nat)
    requires IsChain(m, to, a) && TotOk(m, a) && IsChain(m, from, b) && TotOk(m, b) && (forall x :: x in a ==> x !in b)
    requires offset <= |Flat(m, a)|
    ensures Copying(m, m, to, a, from, b, offset, 0, 0, to, offset, 0, from, 0)
  {
    hide IsChain, TotOk, Flat, At, Writing;
    AtHead(m, a, to);
    AtHead(m, b, from);
    WritingStarts(m, to, a, 0, to, offset);
  }

  /** With bytes left in both chains, both walks are at a pbuf. */
  lemma CopyingAt(m0: Store, m: Store, to: Option<Id>, a: seq<Id>, from: Option<Id>, b: seq<Id>, offset: nat, d: nat,
                  i: nat, pt: Option<Id>, ot: nat, k: nat, pf: Option<Id>, of: nat)
    requires Copying(m0, m, to, a, from, b, offset, d, i, pt, ot, k, pf, of)
    ensures d <= |Flat(m0, b)| && Patched(m0, m, a, offset, Flat(m0, b)[..d])
    ensures offset + d < |Flat(m0, a)| ==> pt.Some?
    ensures d < |Flat(m0, b)| ==> pf.Some?
    ensures pt.Some? ==> i < |a| && a[i] == pt.value && pt.value in m && |m[pt.value].payload| == Length(m0, a[i])
    ensures pf.Some? ==> k < |b| && b[k] == pf.value && pf.value in m && |m[pf.value].payload| == Length(m0, b[k])
  {
    hide IsChain, TotOk, Flat, At;
    WritingAt(m0, m, to, a, offset, Flat(m0, b)[..d], i, pt, ot);
    match pf
    case None => AtEnd(m0, b, k);
    case Some(y) => AtNext(m0, b, k, y);
  }

  /** The memcpy of one round: the next `n` bytes of the source, right behind those copied before. */
  lemma CopyingMore(m0: Store, m: Store, to: Option<Id>, a: seq<Id>, from: Option<Id>, b: seq<Id>, offset: nat, d: nat,
                    i: nat, x: Id, ot: nat, k: nat, y: Id, of: nat, n: nat)
    requires Copying(m0, m, to, a, from, b, offset, d, i, Some(x), ot, k, Some(y), of)
    requires x in m && y in m && ot + n <= |m[x].payload| && of + n <= |m[y].payload|
    ensures k < |b| && d + n <= |Flat(m0, b)| && |Flat(m0, b[..k])| + of == d
    ensures Writing(m0, Written(m, x, ot, m[y].payload[of..of + n]), to, a, offset, Flat(m0, b)[..d + n], i, Some(x),
                    ot + n)
  {
    hide IsChain, TotOk, Flat, At, Writing;
    AtNext(m0, b, k, y);
    WritingAt(m0, m, to, a, offset, Flat(m0, b)[..d], i, Some(x), ot);
    var bs := m[y].payload[of..of + n];
    Unpatched(m0, m, a, offset, Flat(m0, b)[..d], y);
    Prefix(Flat(m0, b[..k]), m0[y].payload, Flat(m0, b[k + 1..]), of, n);
    WritingMore(m0, m, to, a, offset, Flat(m0, b)[..d], i, x, ot, bs);
  }

  lemma Unpatched(m0: Store, m: Store, a: seq<Id>, at: nat, data: seq<Byte>, y: Id)
    requires Patched(m0, m, a, at, data) && y in m0 && y !in a
    ensures y in m && m[y] == m0[y]
  {
  }

  lemma Prefix(a: seq<Byte>, b: seq<Byte>, c: seq<Byte>, o: nat, n: nat)
    requires o + n <= |b|
    ensures (a + b + c)[..|a| + o] + b[o..o + n] == (a + b + c)[..|a| + o + n]
  {
  }

  /** One round of pbuf_copy_partial_pbuf: copy `n` bytes and step on where a pbuf is used up. */
  method CopyRound(pool: PbufPool, x: Id, ot: nat, y: Id, of: nat, n: nat, ghost m0: Store, ghost to: Option<Id>,
                   ghost a: seq<Id>, ghost from: Option<Id>, ghost b: seq<Id>, ghost offset: nat, ghost d: nat,
                   ghost i: nat, ghost k: nat)
    returns (pt: Option<Id>, ot': nat, pf: Option<Id>, of': nat, ghost i': nat, ghost k': nat)
    requires Copying(m0, pool.mem, to, a, from, b, offset, d, i, Some(x), ot, k, Some(y), of)
    requires x in pool.mem && y in pool.mem && ot + n <= |pool.mem[x].payload| && of + n <= |pool.mem[y].payload|
    requires i < |a| && k < |b| && |pool.mem[x].payload| == Length(m0, a[i]) &&
             |pool.mem[y].payload| == Length(m0, b[k])
    modifies pool`mem
    ensures Copying(m0, pool.mem, to, a, from, b, offset, d + n, i', pt, ot', k', pf, of')
    ensures if ot + n == Length(m0, a[i]) then i' == i + 1 && ot' == 0 else i' == i && ot' == ot + n
    ensures if of + n == Length(m0, b[k]) then k' == k + 1 && of' == 0 else k' == k && of' == of + n
  {
    hide IsChain, TotOk, Flat, At, Writing, Length, Patched;
    CopyingMore(m0, pool.mem, to, a, from, b, offset, d, i, x, ot, k, y, of, n);
    AtNext(m0, b, k, y);
    pool.mem := Written(pool.mem, x, ot, pool.mem[y].payload[of..of + n]);
    WritingAt(m0, pool.mem, to, a, offset, Flat(m0, b)[..d + n], i, Some(x), ot + n);
    Unpatched(m0, pool.mem, a, offset, Flat(m0, b)[..d + n], y);
    pt, ot', pf, of', i', k' := Some(x), ot + n, Some(y), of + n, i, k;
    if of' >= |pool.mem[y].payload| {
      pf, of', k' := pool.mem[y].next, 0, k + 1;
    }
    if ot' == |pool.mem[x].payload| {
      WritingNext(m0, pool.mem, to, a, offset, Flat(m0, b)[..d + n], i, x);
      pt, ot', i' := pool.mem[x].next, 0, i + 1;
    }
  }

  predicate SeemsQueue(m: Store, p: Option<Id>) {
    p.Some? && p.value in m && |m[p.value].payload| == m[p.value].totLen && m[p.value].next.Some?
  }

  /** The checks at the end of a round, with `left` bytes to go. */
  function Complaint(m: Store, pf: Option<Id>, pt: Option<Id>, left: nat): Err {
    if left != 0 && (pf.None? || pt.None?) then ErrArg
    else if SeemsQueue(m, pf) || SeemsQueue(m, pt) then ErrVal
    else Ok
  }

  lemma QueueTest(m0: Store, m: Store, ids: seq<Id>, i: nat, p: Option<Id>)
    requires SameShape(m0, m) && TotOk(m0, ids) && At(m0, ids, i, p)
    ensures SeemsQueue(m, p) <==> QueueAt(m0, ids, i)
  {
    hide IsChain, TotOk, Flat, At;
    match p
    case None => AtEnd(m0, ids, i);
    case Some(x) =>
      AtNext(m0, ids, i, x);
      AtRest(m0, ids, i, x);
      if m0[x].next.None? { AtEnd(m0, ids, i + 1); } else { AtNext(m0, ids, i + 1, m0[x].next.value); }
  }

  /** What the first round copies. */
  function FirstRound(m: Store, a: seq<Id>, b: seq<Id>, c: nat, offset: nat): nat
    requires a != [] && b != [] && offset <= Length(m, a[0])
  {
    Min(c, Min(Length(m, a[0]) - offset, Length(m, b[0])))
  }

  /** One of the two walks rests where the code sees a packet queue. */
  ghost predicate Rejected(m: Store, a: seq<Id>, b: seq<Id>, c: nat, offset: nat)
    requires a != [] && b != [] && offset <= Length(m, a[0])
  {
    var n := FirstRound(m, a, b, c, offset);
    Stuck(m, b, c, n < Length(m, b[0])) || Stuck(m, a, offset + c, offset + n < Length(m, a[0]))
  }

  ghost predicate Places(m: Store, a: seq<Id>, b: seq<Id>, c: nat, offset: nat, d: nat,
                         i: nat, ot: nat, k: nat, of: nat, started: bool)
    requires a != [] && b != [] && offset <= Length(m, a[0])
  {
    var n := FirstRound(m, a, b, c, offset);
    && Place(m, b, c, d, k, of, n < Length(m, b[0]), started)
    && Place(m, a, offset + c, offset + d, i, ot, offset + n < Length(m, a[0]), started)
  }

  /** The walks go on, or one of them meets a queue. */
  lemma PlacesStep(m: Store, a: seq<Id>, b: seq<Id>, c: nat, offset: nat, d: nat, i: nat, ot: nat, k: nat, of: nat,
                   started: bool, n: nat, i': nat, ot': nat, k': nat, of': nat)
    requires i < |a| && k < |b| && offset <= Length(m, a[0]) && d <= c
    requires Places(m, a, b, c, offset, d, i, ot, k, of, started) && (if started then d < c else d == 0)
    requires ot <= Length(m, a[i]) && of <= Length(m, b[k])
    requires n == Min(c - d, Min(Length(m, a[i]) - ot, Length(m, b[k]) - of))
    requires if ot + n == Length(m, a[i]) then i' == i + 1 && ot' == 0 else i' == i && ot' == ot + n
    requires if of + n == Length(m, b[k]) then k' == k + 1 && of' == 0 else k' == k && of' == of + n
    ensures if QueueAt(m, b, k') || QueueAt(m, a, i') then Rejected(m, a, b, c, offset)
            else Places(m, a, b, c, offset, d + n, i', ot', k', of', true)
  {
    hide Length, Place, Stuck, QueueAt;
    var n1 := FirstRound(m, a, b, c, offset);
    PlaceOpen(m, b, c, d, k, of, n1 < Length(m, b[0]), started);
    PlaceOpen(m, a, offset + c, offset + d, i, ot, offset + n1 < Length(m, a[0]), started);
    PlaceStep(m, b, c, d, k, of, n1 < Length(m, b[0]), started, n);
    PlaceStep(m, a, offset + c, offset + d, i, ot, offset + n1 < Length(m, a[0]), started, n);
  }

  /** The checks after a round see exactly the queues. */
  lemma RoundChecks(m0: Store, m: Store, to: Option<Id>, a: seq<Id>, from: Option<Id>, b: seq<Id>, offset: nat, d: nat,
                    i: nat, pt: Option<Id>, ot: nat, k: nat, pf: Option<Id>, of: nat, c: nat)
    requires Copying(m0, m, to, a, from, b, offset, d, i, pt, ot, k, pf, of)
    requires d <= c <= |Flat(m0, b)| && offset + c <= |Flat(m0, a)|
    ensures Complaint(m, pf, pt, c - d) == if QueueAt(m0, b, k) || QueueAt(m0, a, i) then ErrVal else Ok
  {
    hide IsChain, TotOk, Flat, At, Length, QueueAt, SeemsQueue, Over, SameShape;
    CopyingAt(m0, m, to, a, from, b, offset, d, i, pt, ot, k, pf, of);
    QueueTest(m0, m, b, k, pf);
    QueueTest(m0, m, a, i, pt);
  }

  lemma PlaceOpen(m: Store, ids: seq<Id>, c: nat, e: nat, i: nat, o: nat, first: bool, started: bool)
    requires Place(m, ids, c, e, i, o, first, started)
    ensures !started ==> i == 0 && o == e
    ensures i < |ids| ==> o <= Length(m, ids[i])
  {
  }

  /**
   pbuf_copy_partial_pbuf. A call with both pbufs there, and source and target long enough, halts on its
   assertion exactly when `offset` lies behind the first target pbuf, ends in ERR_VAL exactly when one of
   its walks is `Rejected`, and otherwise overwrites the target bytes from `offset` on with the first
   `copyLen` bytes of the source.
   */
  method CopyPartialPbuf(pool: PbufPool, to: Option<Id>, from: Option<Id>, copyLen: U16, offset: U16,
                         ghost a: seq<Id>, ghost b: seq<Id>) returns (r: Err, ghost d: nat)
    requires pool.Valid() && IsChain(pool.mem, to, a) && TotOk(pool.mem, a) && IsChain(pool.mem, from, b) &&
             TotOk(pool.mem, b)
    requires forall x :: x in a ==> x !in b
    modifies pool`mem
    ensures pool.Valid() && IsChain(pool.mem, to, a) && TotOk(pool.mem, a)
    ensures !r.ErrArg? <==>
            var m := old(pool.mem);
            to.Some? && from.Some? && copyLen <= |Flat(m, b)| && offset + copyLen <= |Flat(m, a)|
    ensures !r.ErrArg? ==> a != [] && b != [] && (r.Halted? <==> Length(old(pool.mem), a[0]) < offset)
    ensures !r.ErrArg? && !r.Halted? ==> r == if Rejected(old(pool.mem), a, b, copyLen, offset) then ErrVal else Ok
    ensures if r.ErrArg? || r.Halted? then pool.mem == old(pool.mem)
            else d <= copyLen <= |Flat(old(pool.mem), b)| &&
                 Patched(old(pool.mem), pool.mem, a, offset, Flat(old(pool.mem), b)[..d])
    ensures r.Ok? ==> d == copyLen
    ensures r.Ok? ==>
              var s, t := Flat(old(pool.mem), a), Flat(old(pool.mem), b);
              Flat(pool.mem, a) == s[..offset] + t[..copyLen] + s[offset + copyLen..]
  {
    hide RefOk, Ranked, IsChain, TotOk, Flat, At, Writing, Patched, Copying, Places, Rejected, QueueAt, Complaint,
         Length, RoundLength, SameShape, Over, SizeSub, FirstRound;
    ghost var m0 := pool.mem;
    d := 0;
    if from.None? || to.None? { return ErrArg, 0; }
    ChainTotal(m0, from.value, b);
    ChainTotal(m0, to.value, a);
    if pool.mem[from.value].totLen < copyLen || pool.mem[to.value].totLen < offset + copyLen { return ErrArg, 0; }
    var pt, ot: U16, pf, of, left: U16, started := to, offset, from, 0, copyLen, false;
    ghost var i, k := 0, 0;
    CopyingStarts(m0, to, a, from, b, offset);
    PlacesStart(m0, a, b, copyLen, offset);
    while !started || left != 0
      invariant left + d == copyLen && Copying(m0, pool.mem, to, a, from, b, offset, d, i, pt, ot, k, pf, of)
      invariant !started ==> pool.mem == m0 && d == 0 && i == 0 && k == 0
      invariant !started ==> pt == to && pf == from && ot == offset && of == 0
      invariant started ==> offset <= Length(m0, a[0])
      invariant offset <= Length(m0, a[0]) ==> Places(m0, a, b, copyLen, offset, d, i, ot, k, of, started)
      decreases !started, |a| - i + |b| - k + left
    {
      CopyingAt(m0, pool.mem, to, a, from, b, offset, d, i, pt, ot, k, pf, of);
      var x, y := pt.value, pf.value;
      var lenTo, lenFrom := |pool.mem[x].payload|, |pool.mem[y].payload|;
      if offset <= Length(m0, a[0]) { PlacesOpen(m0, a, b, copyLen, offset, d, i, ot, k, of, started); }
      RoundStays(lenTo, ot, lenFrom, of, left);
      var n := RoundLength(lenTo, ot, lenFrom, of, left);
      if ot + n > lenTo { return Err.Halted, 0; }
      ghost var i0, ot0, k0, of0 := i, ot, k, of;
      pt, ot, pf, of, i, k := CopyRound(pool, x, ot, y, of, n, m0, to, a, from, b, offset, d, i, k);
      PlacesStep(m0, a, b, copyLen, offset, d, i0, ot0, k0, of0, started, n, i, ot, k, of);
      RoundChecks(m0, pool.mem, to, a, from, b, offset, d + n, i, pt, ot, k, pf, of, copyLen);
      left, d, started := left - n, d + n, true;
      CopyingAt(m0, pool.mem, to, a, from, b, offset, d, i, pt, ot, k, pf, of);
      var e := Complaint(pool.mem, pf, pt, left);
      if e != Ok {
        PatchedKeeps(m0, pool.mem, to, a, offset, Flat(m0, b)[..d], pool.handles, pool.rank);
        return e, d;
      }
    }
    CopyingAt(m0, pool.mem, to, a, from, b, offset, d, i, pt, ot, k, pf, of);
    PlacesEnd(m0, a, b, copyLen, offset, i, ot, k, of);
    PatchedBytes(m0, pool.mem, a, offset, Flat(m0, b)[..d]);
    PatchedKeeps(m0, pool.mem, to, a, offset, Flat(m0, b)[..d], pool.handles, pool.rank);
    return Ok, d;
  }

  lemma ChainTotal(m: Store, p: Id, ids: seq<Id>)
    requires IsChain(m, Some(p), ids) && TotOk(m, ids)
    ensures ids != [] && ids[0] == p && p in m && m[p].totLen == |Flat(m, ids)|
  {
  }

  lemma PlacesStart(m: Store, a: seq<Id>, b: seq<Id>, c: nat, offset: nat)
    requires a != [] && b != []
    ensures offset <= Length(m, a[0]) ==> Places(m, a, b, c, offset, 0, 0, offset, 0, 0, false)
  {
  }

  lemma PlacesOpen(m: Store, a: seq<Id>, b: seq<Id>, c: nat, offset: nat, d: nat, i: nat, ot: nat, k: nat, of: nat,
                   started: bool)
    requires a != [] && b != [] && offset <= Length(m, a[0]) && Places(m, a, b, c, offset, d, i, ot, k, of, started)
    ensures i < |a| ==> ot <= Length(m, a[i])
    ensures k < |b| ==> of <= Length(m, b[k])
  {
  }

  lemma PlacesEnd(m: Store, a: seq<Id>, b: seq<Id>, c: nat, offset: nat, i: nat, ot: nat, k: nat, of: nat)
    requires a != [] && b != [] && offset <= Length(m, a[0]) && Places(m, a, b, c, offset, c, i, ot, k, of, true)
    ensures !Rejected(m, a, b, c, offset)
  {
    hide Place, Stuck;
    var n := FirstRound(m, a, b, c, offset);
    PlaceEnd(m, b, c, k, of, n < Length(m, b[0]));
    PlaceEnd(m, a, offset + c, i, ot, offset + n < Length(m, a[0]));
  }

  /** Chains without empty pbufs are always copied. */
  lemma NonemptyNotRejected(m: Store, a: seq<Id>, b: seq<Id>, c: nat, offset: nat)
    requires a != [] && b != [] && offset <= Length(m, a[0])
    requires (forall x :: x in a ==> PayloadOf(m, x) != []) && (forall x :: x in b ==> PayloadOf(m, x) != [])
    ensures !Rejected(m, a, b, c, offset)
  {
    forall j: nat ensures !QueueAt(m, a, j) && !QueueAt(m, b, j) {
      if j + 1 < |a| { FlatSplit(m, a, j + 1); }
      if j + 1 < |b| { FlatSplit(m, b, j + 1); }
    }
  }

  /** An empty pbuf behind the source makes the copy fail, unless the first round takes all of the source. */
  lemma TrailingEmptyRejected(m: Store, a: seq<Id>, b: seq<Id>, c: nat, offset: nat)
    requires a != [] && |b| == 2 && offset <= Length(m, a[0]) && PayloadOf(m, b[1]) == []
    requires c < Length(m, b[0]) || Length(m, a[0]) - offset < Length(m, b[0])
    ensures Rejected(m, a, b, c, offset)
  {
    assert b[1..] == [b[1]] && b[1..][1..] == [];
    assert QueueAt(m, b, 0);
  }

  /** So does one behind two pbufs of the source or of the target, as soon as the copy has passed the first. */
  lemma LaterEmptyRejected(m: Store, a: seq<Id>, b: seq<Id>, c: nat, offset: nat)
    requires a != [] && b != [] && offset <= Length(m, a[0])
    requires || (|b| == 3 && PayloadOf(m, b[2]) == [] && Length(m, b[0]) <= c)
             || (|a| == 3 && PayloadOf(m, a[2]) == [] && Length(m, a[0]) <= offset + c)
    ensures Rejected(m, a, b, c, offset)
  {
    if |b| == 3 && PayloadOf(m, b[2]) == [] && Length(m, b[0]) <= c {
      ThirdEmpty(m, b, c);
    } else {
      ThirdEmpty(m, a, offset + c);
    }
  }

  lemma ThirdEmpty(m: Store, ids: seq<Id>, c: nat)
    requires |ids| == 3 && PayloadOf(m, ids[2]) == [] && Length(m, ids[0]) <= c
    ensures Reached(m, ids, c, 1) && QueueAt(m, ids, 1)
  {
    assert ids[..1][1..] == [] && ids[2..] == [ids[2]] && ids[2..][1..] == [];
  }

  /** A copy that stays inside the first pbuf of both chains does not meet it. */
  lemma InFirstNotRejected(m: Store, a: seq<Id>, b: seq<Id>, c: nat, offset: nat)
    requires |a| > 1 && |b| > 1 && offset + c < Length(m, a[0]) && c < Length(m, b[0])
    requires PayloadOf(m, a[1]) != [] && PayloadOf(m, b[1]) != []
    ensures !Rejected(m, a, b, c, offset)
  {
    FirstHolds(m, a, offset + c);
    FirstHolds(m, b, c);
  }

  lemma FirstHolds(m: Store, ids: seq<Id>, c: nat)
    requires |ids| > 1 && c < Length(m, ids[0]) && PayloadOf(m, ids[1]) != []
    ensures !QueueAt(m, ids, 0) && forall j: nat :: !Reached(m, ids, c, j)
  {
    forall j: nat | 1 <= j < |ids| ensures |Flat(m, ids[..j])| > c { assert ids[..j][0] == ids[0]; }
  }

  /** What was written at an offset is what a copy from there finds. */
  lemma WriteThenCopy(m0: Store, m: Store, ids: seq<Id>, at: nat, data: seq<Byte>)
    requires Patched(m0, m, ids, at, data)
    ensures Slice(Flat(m, ids), at, |data|) == data
    ensures forall n: nat :: n <= at ==> Slice(Flat(m, ids), 0, n) == Slice(Flat(m0, ids), 0, n)
    ensures forall o: nat, n: nat :: at + |data| <= o ==> Slice(Flat(m, ids), o, n) == Slice(Flat(m0, ids), o, n)
  {
    hide Flat;
    var s, t := Flat(m0, ids), Flat(m, ids);
    forall o: nat, n: nat | at + |data| <= o ensures Slice(t, o, n) == Slice(s, o, n) {
      assert o < |s| ==> t[o..Min(o + n, |s|)] == s[o..Min(o + n, |s|)];
    }
  }
}
