/**
 The heap of mem.c seen as a layout: the blocks in address order, each with its extent and whether
 it is in use. The operations of the allocator are functions on layouts here; the module Heap proves
 that the linked headers follow them.
 */
module HeapLayout {
  import opened Machine

  const MEM_ALIGNMENT := 4
  const SIZEOF_STRUCT_MEM := 8
  const MIN_SIZE_ALIGNED := 12

  /** Aligned heap sizes with room for one block, for which mem_size_t has 16 bits. */
  type HeapSize = n: nat | n % MEM_ALIGNMENT == 0 && 20 <= n <= 64000 witness 3072

  /** The size of the heap is arbitrary; this firmware has 3072 bytes. */
  const MEM_SIZE: HeapSize

  /** The extent of a block, header included. */
  datatype Block = Block(start: nat, end: nat, used: bool)

  type Layout = seq<Block>

  /** Bytes of data a block can hold. */
  function Room(b: Block): int { b.end - b.start - SIZEOF_STRUCT_MEM }

  /**
   The blocks follow one another from offset `at` in aligned pieces of a minimum size, and no two
   neighbours are both free; `free` says whether the block before them is free.
   */
  ghost predicate Follow(L: Layout, at: nat, free: bool) {
    L == [] ||
    (&& L[0].start == at && at % MEM_ALIGNMENT == 0 && Room(L[0]) >= MIN_SIZE_ALIGNED
     && !(free && !L[0].used)
     && Follow(L[1..], L[0].end, !L[0].used))
  }

  function EndOf(L: Layout, at: nat): nat { if L == [] then at else L[|L| - 1].end }

  predicate FreeAfter(L: Layout, free: bool) { if L == [] then free else !L[|L| - 1].used }

  /** The blocks tile the whole heap. */
  ghost predicate Good(L: Layout) {
    L != [] && Follow(L, 0, false) && EndOf(L, 0) == MEM_SIZE
  }

  lemma {:induction false} FollowConcat(a: Layout, b: Layout, at: nat, free: bool)
    ensures Follow(a + b, at, free) <==> Follow(a, at, free) && Follow(b, EndOf(a, at), FreeAfter(a, free))
  {
    if a == [] {
      assert a + b == b;
    } else {
      assert (a + b)[1..] == a[1..] + b;
      FollowConcat(a[1..], b, a[0].end, !a[0].used);
    }
  }

  /** The layout around block `i`, taken apart and put together. */
  lemma FollowAround(L: Layout, i: nat, bs: Layout)
    requires i < |L|
    ensures Follow(Replace(L, i, bs), 0, false) <==>
            && Follow(L[..i], 0, false)
            && Follow(bs, EndOf(L[..i], 0), FreeAfter(L[..i], false))
            && Follow(L[i + 1..], EndOf(bs, EndOf(L[..i], 0)), FreeAfter(bs, FreeAfter(L[..i], false)))
  {
    FollowConcat(L[..i] + bs, L[i + 1..], 0, false);
    FollowConcat(L[..i], bs, 0, false);
  }

  /** Replace block `i` by the blocks `bs`. */
  function Replace(L: Layout, i: nat, bs: Layout): Layout
    requires i < |L|
  {
    L[..i] + bs + L[i + 1..]
  }

  lemma GoodAround(L: Layout, i: nat)
    requires Good(L) && i < |L|
    ensures Follow(L[..i], 0, false) && EndOf(L[..i], 0) == L[i].start
    ensures L[i].start % MEM_ALIGNMENT == 0 && Room(L[i]) >= MIN_SIZE_ALIGNED
    ensures FreeAfter(L[..i], false) ==> L[i].used
    ensures Follow(L[i + 1..], L[i].end, !L[i].used) && EndOf(L[i + 1..], L[i].end) == MEM_SIZE
    ensures i + 1 < |L| ==> L[i].end == L[i + 1].start
    ensures i + 1 == |L| ==> L[i].end == MEM_SIZE
    ensures L[i].end <= MEM_SIZE
  {
    FollowAround(L, i, [L[i]]);
    assert Replace(L, i, [L[i]]) == L;
    FollowEnd(L[i + 1..], L[i].end, !L[i].used);
  }

  lemma FollowUsed(L: Layout, at: nat, free: bool, free': bool)
    requires Follow(L, at, free) && (L == [] || L[0].used || !free')
    ensures Follow(L, at, free')
  {
  }

  lemma FollowExtend(A: Layout, m: Block)
    requires Follow(A, 0, false) && EndOf(A, 0) == m.start && (!FreeAfter(A, false) || m.used)
    requires m.start % MEM_ALIGNMENT == 0 && Room(m) >= MIN_SIZE_ALIGNED
    ensures Follow(A + [m], 0, false)
  {
    assert Follow([m], m.start, FreeAfter(A, false));
    FollowConcat(A, [m], 0, false);
  }

  /** One block between a front and a back that fit it. */
  lemma JoinGood(A: Layout, m: Block, C: Layout)
    requires Follow(A, 0, false) && EndOf(A, 0) == m.start && (!FreeAfter(A, false) || m.used)
    requires m.start % MEM_ALIGNMENT == 0 && Room(m) >= MIN_SIZE_ALIGNED
    requires Follow(C, m.end, !m.used) && EndOf(C, m.end) == MEM_SIZE
    ensures Good(A + [m] + C)
  {
    FollowExtend(A, m);
    FollowConcat(A + [m], C, 0, false);
  }

  lemma {:induction false} FollowEnd(L: Layout, at: nat, free: bool)
    requires Follow(L, at, free)
    ensures at <= EndOf(L, at)
  {
    if L != [] { FollowEnd(L[1..], L[0].end, !L[0].used); }
  }

  lemma {:induction false} FollowOrdered(L: Layout, at: nat, free: bool, i: nat)
    requires Follow(L, at, free) && i < |L|
    ensures at <= L[i].start && L[i].start % MEM_ALIGNMENT == 0 && L[i].start + 20 <= L[i].end
    ensures forall j :: i < j < |L| ==> L[i].end <= L[j].start
  {
    if i == 0 {
      forall j | 0 < j < |L| ensures L[0].end <= L[j].start {
        FollowOrdered(L[1..], L[0].end, !L[0].used, j - 1);
      }
    } else {
      FollowOrdered(L[1..], L[0].end, !L[0].used, i - 1);
      forall j | i < j < |L| ensures L[i].end <= L[j].start {
        assert L[j] == L[1..][j - 1];
      }
    }
  }

  function FreeStarts(L: Layout): set<nat> { set b | b in L && !b.used :: b.start }

  /** `p` is the lowest free block, or the end of the heap when there is none. */
  ghost predicate IsLowestFree(L: Layout, p: nat) {
    (forall s :: s in FreeStarts(L) ==> p <= s) && (p in FreeStarts(L) || p == MEM_SIZE)
  }

  const InitialLayout: Layout := [Block(0, MEM_SIZE, false)]

  lemma InitialGood()
    ensures Good(InitialLayout) && IsLowestFree(InitialLayout, 0)
  {
  }

  // ---------- Sizes ----------

  /** The data size a request for `n` bytes needs: the least multiple of 4 that is at least `n` and 12. */
  function Needed(n: nat): (m: nat)
    ensures m % 4 == 0 && m >= n && m >= 12 && (m == 12 || m < n + 4)
  {
    var aligned := (n + 3) / 4 * 4;
    if aligned < MIN_SIZE_ALIGNED then MIN_SIZE_ALIGNED else aligned
  }

  /** The same computation in 16 bits, where the alignment of the largest sizes wraps to zero. */
  function Needed16(n: U16): U16 {
    var aligned := (n + 3) / 4 * 4 % 0x1_0000;
    if aligned < MIN_SIZE_ALIGNED then MIN_SIZE_ALIGNED else aligned
  }

  /** The overflow check catches exactly the sizes that wrap or exceed the heap. */
  lemma NeededExact(n: U16)
    ensures Needed16(n) > MEM_SIZE || Needed16(n) < n <==> Needed(n) > MEM_SIZE
    ensures Needed(n) <= MEM_SIZE ==> Needed16(n) == Needed(n)
    ensures Needed(n) % MEM_ALIGNMENT == 0 && Needed(n) >= MIN_SIZE_ALIGNED && Needed(n) >= n
  {
  }

  // ---------- Allocation ----------

  predicate Fits(b: Block, size: nat) { !b.used && Room(b) >= size }

  /** The index of the lowest block that fits, or the number of blocks. */
  function FirstFit(L: Layout, size: nat): (i: nat)
    ensures i <= |L| && (i < |L| ==> Fits(L[i], size))
    ensures forall j :: 0 <= j < i ==> !Fits(L[j], size)
  {
    if L == [] || Fits(L[0], size) then 0 else 1 + FirstFit(L[1..], size)
  }

  predicate Splits(b: Block, size: nat) { Room(b) >= size + SIZEOF_STRUCT_MEM + MIN_SIZE_ALIGNED }

  /** The two parts of a block cut after `size` data bytes. */
  function Front(b: Block, size: nat): Block { Block(b.start, b.start + SIZEOF_STRUCT_MEM + size, true) }
  function Back(b: Block, size: nat): Block { Block(b.start + SIZEOF_STRUCT_MEM + size, b.end, false) }

  /** Take block `i` for `size` data bytes, splitting off the rest when it can hold a block. */
  function Allocate(L: Layout, i: nat, size: nat): Layout
    requires i < |L|
  {
    if Splits(L[i], size) then Replace(L, i, [Front(L[i], size), Back(L[i], size)])
    else L[i := L[i].(used := true)]
  }

  /** A block in use cut to `size` data bytes, and the rest up to `end` as a free block. */
  lemma CutGood(A: Layout, b: Block, size: nat, end: nat, C: Layout)
    requires Follow(A, 0, false) && EndOf(A, 0) == b.start && b.start % MEM_ALIGNMENT == 0
    requires size % MEM_ALIGNMENT == 0 && size >= MIN_SIZE_ALIGNED
    requires end >= b.start + 2 * SIZEOF_STRUCT_MEM + size + MIN_SIZE_ALIGNED
    requires Follow(C, end, true) && EndOf(C, end) == MEM_SIZE
    ensures Good(A + [Front(b, size), Block(b.start + SIZEOF_STRUCT_MEM + size, end, false)] + C)
  {
    hide Follow;
    var front, rest := Front(b, size), Block(b.start + SIZEOF_STRUCT_MEM + size, end, false);
    FollowExtend(A, front);
    JoinGood(A + [front], rest, C);
    assert A + [front, rest] + C == A + [front] + [rest] + C;
  }

  lemma AllocateGood(L: Layout, i: nat, size: nat)
    requires Good(L) && i < |L| && Fits(L[i], size)
    requires size % MEM_ALIGNMENT == 0 && size >= MIN_SIZE_ALIGNED
    ensures Good(Allocate(L, i, size))
  {
    hide Follow, Front, Good, EndOf;
    GoodAround(L, i);
    var A, b, C := L[..i], L[i], L[i + 1..];
    if Splits(b, size) {
      CutGood(A, b, size, b.end, C);
    } else {
      FollowUsed(C, b.end, true, false);
      JoinGood(A, b.(used := true), C);
      assert Allocate(L, i, size) == A + [b.(used := true)] + C;
    }
  }

  // ---------- Release ----------

  /** Blocks `i` and `i + 1` as one free block. */
  function Merge(L: Layout, i: nat): Layout
    requires i + 1 < |L|
  {
    L[..i] + [Block(L[i].start, L[i + 1].end, false)] + L[i + 2..]
  }

  function MergeNext(L: Layout, i: nat): Layout
    requires i < |L|
  {
    if i + 1 < |L| && !L[i + 1].used then Merge(L, i) else L
  }

  function MergePrevious(L: Layout, i: nat): Layout
    requires i < |L|
  {
    if i > 0 && !L[i - 1].used then Merge(L, i - 1) else L
  }

  /** Free block `i` and join it with its free neighbours. */
  function Release(L: Layout, i: nat): Layout
    requires i < |L|
  {
    MergePrevious(MergeNext(L[i := L[i].(used := false)], i), i)
  }

  /** What is left before and after block `i` when its free neighbours are taken in. */
  function KeptBefore(L: Layout, i: nat): Layout
    requires i < |L|
  {
    if i > 0 && !L[i - 1].used then L[..i - 1] else L[..i]
  }

  function KeptAfter(L: Layout, i: nat): Layout
    requires i < |L|
  {
    if i + 1 < |L| && !L[i + 1].used then L[i + 2..] else L[i + 1..]
  }

  /** The free block that releasing block `i` leaves. */
  function ReleasedBlock(L: Layout, i: nat): Block
    requires i < |L|
  {
    Block(if i > 0 && !L[i - 1].used then L[i - 1].start else L[i].start,
          if i + 1 < |L| && !L[i + 1].used then L[i + 1].end else L[i].end,
          false)
  }

  lemma ReleaseShape(L: Layout, i: nat)
    requires i < |L|
    ensures Release(L, i) == KeptBefore(L, i) + [ReleasedBlock(L, i)] + KeptAfter(L, i)
  {
  }

  lemma KeptBeforeFollows(L: Layout, i: nat)
    requires Good(L) && i < |L|
    ensures var A, m := KeptBefore(L, i), ReleasedBlock(L, i);
            Follow(A, 0, false) && EndOf(A, 0) == m.start && !FreeAfter(A, false) && m.start % MEM_ALIGNMENT == 0
  {
    hide Follow;
    GoodAround(L, i);
    if i > 0 { GoodAround(L, i - 1); }
  }

  lemma KeptAfterFollows(L: Layout, i: nat)
    requires Good(L) && i < |L|
    ensures var C, m := KeptAfter(L, i), ReleasedBlock(L, i);
            Follow(C, m.end, true) && EndOf(C, m.end) == MEM_SIZE
  {
    GoodAround(L, i);
    if i + 1 < |L| { GoodAround(L, i + 1); }
  }

  lemma ReleaseGood(L: Layout, i: nat)
    requires Good(L) && i < |L|
    ensures Good(Release(L, i))
  {
    hide Follow, Release, KeptBefore, KeptAfter;
    KeptBeforeFollows(L, i);
    KeptAfterFollows(L, i);
    ReleaseShape(L, i);
    GoodAround(L, i);
    if i > 0 { GoodAround(L, i - 1); }
    if i + 1 < |L| { GoodAround(L, i + 1); }
    JoinGood(KeptBefore(L, i), ReleasedBlock(L, i), KeptAfter(L, i));
  }

  // ---------- Trimming ----------

  /**
   Cut block `i` down to `size` data bytes: a free successor moves down to it, and before a used one
   the rest becomes a free block if it can hold one.
   */
  function Shrink(L: Layout, i: nat, size: nat): Layout
    requires i < |L|
  {
    if i + 1 < |L| && !L[i + 1].used then
      L[..i] + [Front(L[i], size), Block(L[i].start + SIZEOF_STRUCT_MEM + size, L[i + 1].end, false)] + L[i + 2..]
    else if Splits(L[i], size) then Replace(L, i, [Front(L[i], size), Back(L[i], size)])
    else L
  }

  lemma ShrinkGood(L: Layout, i: nat, size: nat)
    requires Good(L) && i < |L| && L[i].used
    requires size % MEM_ALIGNMENT == 0 && MIN_SIZE_ALIGNED <= size <= Room(L[i])
    ensures Good(Shrink(L, i, size))
  {
    hide Follow, Front, Good, EndOf;
    GoodAround(L, i);
    if i + 1 < |L| && !L[i + 1].used {
      GoodAround(L, i + 1);
      CutGood(L[..i], L[i], size, L[i + 1].end, L[i + 2..]);
    } else if Splits(L[i], size) {
      FollowUsed(L[i + 1..], L[i].end, false, true);
      CutGood(L[..i], L[i], size, L[i].end, L[i + 1..]);
    }
  }

  // ---------- The blocks in use ----------

  function Used(L: Layout): set<Block> { set b | b in L && b.used }

  lemma UsedConcat(a: Layout, b: Layout)
    ensures Used(a + b) == Used(a) + Used(b)
  {
  }

  lemma UsedOne(b: Block)
    ensures Used([b]) == if b.used then {b} else {}
  {
  }

  /** The blocks in use around block `i`, which is not one of the others. */
  lemma UsedAround(L: Layout, i: nat)
    requires Good(L) && i < |L|
    ensures Used(L) == Used(L[..i]) + Used([L[i]]) + Used(L[i + 1..])
    ensures L[i] !in Used(L[..i]) && L[i] !in Used(L[i + 1..])
  {
    assert L == L[..i] + [L[i]] + L[i + 1..];
    UsedConcat(L[..i] + [L[i]], L[i + 1..]);
    UsedConcat(L[..i], [L[i]]);
    forall j | 0 <= j < |L| && j != i ensures L[j] != L[i] {
      if j < i { GoodDisjoint(L, j, i); } else { GoodDisjoint(L, i, j); }
    }
  }

  lemma UsedInFront(A: Layout, two: Layout, C: Layout, b: Block, rest: Block)
    requires two == [b, rest] && b.used && !rest.used
    ensures Used(A + two + C) == Used(A) + {b} + Used(C)
  {
    UsedConcat(A + two, C);
    UsedConcat(A, two);
    UsedConcat([b], [rest]);
    assert two == [b] + [rest];
  }

  /** Blocks of a good layout do not overlap, so no two have the same start. */
  lemma GoodDisjoint(L: Layout, i: nat, j: nat)
    requires Good(L) && i < j < |L|
    ensures L[i].start < L[i].end <= L[j].start < L[j].end <= MEM_SIZE
  {
    FollowOrdered(L, 0, false, i);
    FollowOrdered(L, 0, false, j);
    GoodAround(L, j);
  }

  /** Allocation adds exactly one block to those in use: large enough, aligned, and not there before. */
  lemma AllocateUsed(L: Layout, i: nat, size: nat)
    requires Good(L) && i < |L| && Fits(L[i], size) && size >= MIN_SIZE_ALIGNED
    ensures var b := if Splits(L[i], size) then Front(L[i], size) else L[i].(used := true);
            && Used(Allocate(L, i, size)) == Used(L) + {b} && b !in Used(L)
            && Room(b) >= size && b.start == L[i].start && b.end <= L[i].end
            && forall u :: u in Used(L) ==> u.end <= b.start || b.end <= u.start
  {
    var b := if Splits(L[i], size) then Front(L[i], size) else L[i].(used := true);
    var A, C := L[..i], L[i + 1..];
    UsedAround(L, i);
    if Splits(L[i], size) {
      UsedInFront(A, [b, Back(L[i], size)], C, b, Back(L[i], size));
    } else {
      assert Allocate(L, i, size) == A + [b] + C;
      UsedConcat(A + [b], C);
      UsedConcat(A, [b]);
      UsedOne(b);
    }
    forall u | u in Used(L) ensures u.end <= b.start || b.end <= u.start {
      var j :| 0 <= j < |L| && L[j] == u;
      if j < i { GoodDisjoint(L, j, i); } else { GoodDisjoint(L, i, j); }
    }
  }

  /** The neighbours taken in were free. */
  lemma KeptUsed(L: Layout, i: nat)
    requires i < |L|
    ensures Used(KeptBefore(L, i)) == Used(L[..i]) && Used(KeptAfter(L, i)) == Used(L[i + 1..])
  {
    hide Used;
    if i > 0 && !L[i - 1].used {
      assert L[..i] == L[..i - 1] + [L[i - 1]];
      UsedConcat(L[..i - 1], [L[i - 1]]);
      UsedOne(L[i - 1]);
    }
    if i + 1 < |L| && !L[i + 1].used {
      assert L[i + 1..] == [L[i + 1]] + L[i + 2..];
      UsedConcat([L[i + 1]], L[i + 2..]);
      UsedOne(L[i + 1]);
    }
  }

  lemma ReleaseUsed(L: Layout, i: nat)
    requires Good(L) && i < |L| && L[i].used
    ensures Used(Release(L, i)) == Used(L) - {L[i]}
  {
    hide Used, Release, KeptBefore, KeptAfter;
    var A, m, C := KeptBefore(L, i), ReleasedBlock(L, i), KeptAfter(L, i);
    ReleaseShape(L, i);
    UsedAround(L, i);
    UsedOne(L[i]);
    UsedOne(m);
    KeptUsed(L, i);
    UsedConcat(A + [m], C);
    UsedConcat(A, [m]);
  }

  /** Only the block itself changes: it is cut to `size` if the rest can be given back, and else stays whole. */
  lemma ShrinkUsed(L: Layout, i: nat, size: nat) returns (b: Block)
    requires Good(L) && i < |L| && L[i].used && MIN_SIZE_ALIGNED <= size <= Room(L[i])
    ensures Used(Shrink(L, i, size)) == Used(L) - {L[i]} + {b} && b.used && b.start == L[i].start && b.end <= L[i].end
    ensures Room(b) == if (i + 1 < |L| && !L[i + 1].used) || Splits(L[i], size) then size else Room(L[i])
  {
    UsedAround(L, i);
    UsedOne(L[i]);
    var A := L[..i];
    b := Front(L[i], size);
    if i + 1 < |L| && !L[i + 1].used {
      var moved, C := Block(b.end, L[i + 1].end, false), L[i + 2..];
      UsedInFront(A, [b, moved], C, b, moved);
      assert L[i + 1..] == [L[i + 1]] + C;
      UsedConcat([L[i + 1]], C);
      UsedOne(L[i + 1]);
    } else if Splits(L[i], size) {
      UsedInFront(A, [b, Back(L[i], size)], L[i + 1..], b, Back(L[i], size));
    } else {
      b := L[i];
    }
  }

  /**
   The blocks in use determine the layout: in a heap that is tiled without free neighbours, the free
   blocks are the gaps between them.
   */
  lemma UsedDetermines(L: Layout, L': Layout)
    requires Good(L) && Good(L') && Used(L) == Used(L')
    ensures L == L'
  {
    FollowDetermined(L, L', 0, false);
  }

  lemma {:induction false} FollowDetermined(L: Layout, L': Layout, at: nat, free: bool)
    requires Follow(L, at, free) && Follow(L', at, free) && EndOf(L, at) == EndOf(L', at) && Used(L) == Used(L')
    ensures L == L'
    decreases |L|
  {
    if L == [] || L' == [] {
      if L != [] { FollowEnd(L[1..], L[0].end, !L[0].used); }
      if L' != [] { FollowEnd(L'[1..], L'[0].end, !L'[0].used); }
    } else {
      SameFirst(L, L', at, free);
      UsedRest(L, at, free);
      UsedRest(L', at, free);
      FollowDetermined(L[1..], L'[1..], L[0].end, !L[0].used);
    }
  }

  lemma UsedRest(L: Layout, at: nat, free: bool)
    requires L != [] && Follow(L, at, free)
    ensures Used(L[1..]) == Used(L) - {L[0]}
  {
    assert L == [L[0]] + L[1..];
    UsedConcat([L[0]], L[1..]);
    UsedOne(L[0]);
    FollowOrdered(L, at, free, 0);
    assert L[0] !in L[1..];
  }

  /** A block of `L` in use is a block of `L'`, in the same place. */
  lemma FirstUsed(L: Layout, L': Layout, at: nat, free: bool)
    requires L != [] && L' != [] && Follow(L, at, free) && Follow(L', at, free) && Used(L) == Used(L') && L[0].used
    ensures L'[0] == L[0]
  {
    assert L[0] in Used(L');
    var j :| 0 <= j < |L'| && L'[j] == L[0];
    FollowOrdered(L', at, free, 0);
  }

  /** A first free block ends where the first block in use starts. */
  lemma FreeReach(L: Layout, L': Layout, at: nat, free: bool)
    requires L != [] && L' != [] && Follow(L, at, free) && Follow(L', at, free) && Used(L) == Used(L')
    requires EndOf(L, at) == EndOf(L', at) && !L[0].used && !L'[0].used
    ensures L'[0].end <= L[0].end
  {
    FollowOrdered(L', at, free, 0);
    FollowOrdered(L, at, free, 0);
    if |L| > 1 {
      assert L[1] == L[1..][0] && L[1].used && L[1].start == L[0].end;
      assert L[1] in Used(L');
      var j :| 0 <= j < |L'| && L'[j] == L[1];
    } else {
      FollowEnd(L'[1..], L'[0].end, true);
      assert EndOf(L', at) == EndOf(L'[1..], L'[0].end);
    }
  }

  lemma SameFirst(L: Layout, L': Layout, at: nat, free: bool)
    requires L != [] && L' != [] && Follow(L, at, free) && Follow(L', at, free) && Used(L) == Used(L')
    requires EndOf(L, at) == EndOf(L', at)
    ensures L[0] == L'[0]
  {
    if L[0].used {
      FirstUsed(L, L', at, free);
    } else if L'[0].used {
      FirstUsed(L', L, at, free);
    } else {
      FreeReach(L, L', at, free);
      FreeReach(L', L, at, free);
    }
  }

  // ---------- The lowest free block ----------

  lemma FreeConcat(a: Layout, b: Layout)
    ensures FreeStarts(a + b) == FreeStarts(a) + FreeStarts(b)
  {
    forall s | s in FreeStarts(a) + FreeStarts(b) ensures s in FreeStarts(a + b) {
      var q :| (q in a || q in b) && !q.used && q.start == s;
      assert q in a + b;
    }
  }

  lemma FreeOne(b: Block)
    ensures FreeStarts([b]) == if b.used then {} else {b.start}
  {
    if !b.used { assert b in [b]; }
  }

  lemma FreeAround(L: Layout, i: nat, bs: Layout)
    requires i < |L|
    ensures FreeStarts(Replace(L, i, bs)) == FreeStarts(L[..i]) + FreeStarts(bs) + FreeStarts(L[i + 1..])
    ensures FreeStarts(L) == FreeStarts(L[..i]) + FreeStarts([L[i]]) + FreeStarts(L[i + 1..])
  {
    FreeConcat(L[..i] + bs, L[i + 1..]);
    FreeConcat(L[..i], bs);
    assert L == L[..i] + [L[i]] + L[i + 1..];
    FreeConcat(L[..i] + [L[i]], L[i + 1..]);
    FreeConcat(L[..i], [L[i]]);
  }

  /** Taking a block above the lowest free one leaves that one the lowest. */
  lemma AllocateLowest(L: Layout, i: nat, size: nat, p: nat)
    requires i < |L| && Fits(L[i], size) && IsLowestFree(L, p) && L[i].start != p
    ensures IsLowestFree(Allocate(L, i, size), p)
  {
    hide FreeStarts;
    var b := L[i];
    FreeOne(b);
    if Splits(b, size) {
      FreeAround(L, i, [Front(b, size), Back(b, size)]);
      FreeConcat([Front(b, size)], [Back(b, size)]);
      assert [Front(b, size)] + [Back(b, size)] == [Front(b, size), Back(b, size)];
      FreeOne(Front(b, size));
      FreeOne(Back(b, size));
    } else {
      FreeAround(L, i, [b.(used := true)]);
      FreeOne(b.(used := true));
      assert Allocate(L, i, size) == Replace(L, i, [b.(used := true)]);
    }
  }

  /** Joining two free blocks only drops the start of the second. */
  lemma MergeLowest(L: Layout, i: nat, p: nat)
    requires i + 1 < |L| && !L[i].used && !L[i + 1].used && L[i].start < L[i + 1].start && IsLowestFree(L, p)
    ensures IsLowestFree(Merge(L, i), p)
  {
    hide FreeStarts;
    var m := Block(L[i].start, L[i + 1].end, false);
    FreeAround(L, i, [m]);
    FreeOne(L[i]);
    FreeOne(m);
    assert L[i + 1..] == [L[i + 1]] + L[i + 2..];
    FreeConcat([L[i + 1]], L[i + 2..]);
    FreeOne(L[i + 1]);
    FreeConcat(L[..i] + [m], L[i + 2..]);
    FreeConcat(L[..i], [m]);
  }

  /** Marking a block free makes it the lowest if it lies below the lowest so far. */
  lemma FreedLowest(L: Layout, i: nat, p: nat)
    requires i < |L| && L[i].used && IsLowestFree(L, p) && L[i].start < MEM_SIZE
    ensures IsLowestFree(L[i := L[i].(used := false)], if L[i].start < p then L[i].start else p)
  {
    hide FreeStarts;
    var b := L[i].(used := false);
    FreeAround(L, i, [b]);
    FreeOne(L[i]);
    FreeOne(b);
    assert L[i := b] == Replace(L, i, [b]);
  }

  /** Trimming block `i` moves the start of a free successor, or makes a new free block. */
  lemma ShrinkLowest(L: Layout, i: nat, size: nat, p: nat)
    requires Good(L) && i < |L| && L[i].used && size <= Room(L[i]) && IsLowestFree(L, p)
    ensures var ptr2 := L[i].start + SIZEOF_STRUCT_MEM + size;
            IsLowestFree(Shrink(L, i, size),
                         if i + 1 < |L| && !L[i + 1].used then (if p == L[i + 1].start then ptr2 else p)
                         else if Splits(L[i], size) && ptr2 < p then ptr2 else p)
  {
    hide FreeStarts, Follow;
    GoodAround(L, i);
    var front := Front(L[i], size);
    FreeOne(L[i]);
    FreeOne(front);
    if i + 1 < |L| && !L[i + 1].used {
      var moved, C := Block(front.end, L[i + 1].end, false), L[i + 2..];
      GoodAround(L, i + 1);
      FreeAround(L, i, []);
      assert L[i + 1..] == [L[i + 1]] + C;
      FreeConcat([L[i + 1]], C);
      FreeOne(L[i + 1]);
      FreePair(L[..i], front, moved, C);
      ShrinkAbove(L, i, L[..i], C);
    } else if Splits(L[i], size) {
      FreeAround(L, i, []);
      FreePair(L[..i], front, Back(L[i], size), L[i + 1..]);
    }
  }

  lemma FreePair(A: Layout, b: Block, c: Block, C: Layout)
    requires b.used && !c.used
    ensures FreeStarts(A + [b, c] + C) == FreeStarts(A) + {c.start} + FreeStarts(C)
  {
    FreeConcat(A + [b, c], C);
    FreeConcat(A, [b, c]);
    FreeConcat([b], [c]);
    assert [b, c] == [b] + [c];
    FreeOne(b);
    FreeOne(c);
  }

  /** Free blocks behind block `i + 1` start at or after its end; those before block `i` end before it. */
  lemma ShrinkAbove(L: Layout, i: nat, A: Layout, C: Layout)
    requires Good(L) && i + 1 < |L| && A == L[..i] && C == L[i + 2..]
    ensures forall s :: s in FreeStarts(A) ==> s < L[i].start
    ensures forall s :: s in FreeStarts(C) ==> s >= L[i + 1].end
  {
    forall s | s in FreeStarts(A) ensures s < L[i].start {
      var j :| 0 <= j < |A| && !A[j].used && A[j].start == s;
      GoodDisjoint(L, j, i);
    }
    forall s | s in FreeStarts(C) ensures s >= L[i + 1].end {
      var j :| 0 <= j < |C| && !C[j].used && C[j].start == s;
      GoodDisjoint(L, i + 1, i + 2 + j);
    }
  }

  lemma LowestBelow(L: Layout, i: nat, p: nat)
    requires IsLowestFree(L, p) && i < |L| && !L[i].used
    ensures p <= L[i].start
  {
    assert L[i] in L && L[i].start in FreeStarts(L);
  }

  /** When all blocks before `k` are in use, block `k` is the lowest free one if it is free. */
  lemma LowestFrom(L: Layout, k: nat)
    requires Good(L) && k <= |L| && (k < |L| ==> !L[k].used) && forall j :: 0 <= j < k ==> L[j].used
    ensures IsLowestFree(L, if k < |L| then L[k].start else MEM_SIZE)
  {
    forall s | s in FreeStarts(L) ensures k < |L| && L[k].start <= s {
      var j :| 0 <= j < |L| && !L[j].used && L[j].start == s;
      if k < j { GoodDisjoint(L, k, j); }
    }
    if k < |L| { assert L[k] in L; }
  }

  /** The index of the lowest free block, before which all are in use. */
  ghost function LowestIndex(L: Layout, p: nat): (i: nat)
    requires Good(L) && IsLowestFree(L, p)
    ensures i <= |L| && p == (if i < |L| then L[i].start else MEM_SIZE)
    ensures forall j :: 0 <= j < i ==> L[j].used
    ensures i < |L| ==> !L[i].used
  {
    var i := FirstFree(L);
    LowestUnique(L, i, p);
    i
  }

  function FirstFree(L: Layout): (i: nat)
    ensures i <= |L| && (i < |L| ==> !L[i].used) && forall j :: 0 <= j < i ==> L[j].used
  {
    if L == [] || !L[0].used then 0 else 1 + FirstFree(L[1..])
  }

  lemma LowestUnique(L: Layout, i: nat, p: nat)
    requires Good(L) && IsLowestFree(L, p)
    requires i <= |L| && (i < |L| ==> !L[i].used) && forall j :: 0 <= j < i ==> L[j].used
    ensures p == if i < |L| then L[i].start else MEM_SIZE
  {
    LowestFrom(L, i);
    if i < |L| {
      assert L[i].start in FreeStarts(L) by { assert L[i] in L; }
      GoodAround(L, i);
    }
  }

  lemma NothingFits(L: Layout, size: nat)
    requires Good(L) && size > MEM_SIZE
    ensures FirstFit(L, size) == |L|
  {
    forall j | 0 <= j < |L| ensures !Fits(L[j], size) { GoodAround(L, j); }
  }

  lemma {:induction false} FirstFitIs(L: Layout, size: nat, i: nat)
    requires i < |L| && Fits(L[i], size) && forall j :: 0 <= j < i ==> !Fits(L[j], size)
    ensures FirstFit(L, size) == i
  {
    if i > 0 { FirstFitIs(L[1..], size, i - 1); }
  }

  /** No block that starts within `size` of the end fits. */
  lemma NoneAbove(L: Layout, i: nat, size: nat)
    requires Good(L) && i <= |L| && forall j :: 0 <= j < i ==> !Fits(L[j], size)
    requires (if i < |L| then L[i].start else MEM_SIZE) + size >= MEM_SIZE
    ensures FirstFit(L, size) == |L|
  {
    forall j | i <= j < |L| ensures !Fits(L[j], size) {
      GoodAround(L, j);
      if i < j { GoodDisjoint(L, i, j); }
    }
  }

  /** The block that starts at `p`, or the number of blocks. */
  function IndexOf(L: Layout, p: int): (i: nat)
    ensures i <= |L| && (i < |L| ==> L[i].start == p) && forall j :: 0 <= j < i ==> L[j].start != p
  {
    if L == [] || L[0].start == p then 0 else 1 + IndexOf(L[1..], p)
  }

  /** A block in use starts at `p`. */
  predicate InUse(L: Layout, p: int) { IndexOf(L, p) < |L| && L[IndexOf(L, p)].used }

  /** Freeing a pointer to the data of the block at `p`: only a block in use is released. */
  function FreeAt(L: Layout, p: int): Layout {
    if InUse(L, p) then Release(L, IndexOf(L, p)) else L
  }

  lemma ShrinkNothing(L: Layout, i: nat)
    requires Good(L) && i < |L| && L[i].used && Room(L[i]) >= 0
    ensures Shrink(L, i, Room(L[i])) == L
  {
    GoodAround(L, i);
  }

  // ---------- Runs ----------

  /** mem_trim goes through: it can only shrink, and stops in an assertion on the last block. */
  predicate Trims(L: Layout, i: nat, n: nat)
    requires i < |L|
  {
    Needed(n) <= MEM_SIZE && Needed(n) <= Room(L[i]) && !(Splits(L[i], Needed(n)) && i + 1 == |L|)
  }

  /** Calls of the allocator; blocks are named by their start. */
  datatype Call = Malloc(n: U16) | Free(p: int) | Trim(p: int, n: U16)

  function Apply(L: Layout, call: Call): Layout {
    match call
    case Malloc(n) =>
      var i := FirstFit(L, Needed(n));
      if n > 0 && i < |L| then Allocate(L, i, Needed(n)) else L
    case Free(p) => FreeAt(L, p)
    case Trim(p, n) =>
      var i := IndexOf(L, p);
      if i < |L| && L[i].used && Trims(L, i, n) then Shrink(L, i, Needed(n)) else L
  }

  function Run(L: Layout, calls: seq<Call>): Layout
    decreases calls
  {
    if calls == [] then L else Run(Apply(L, calls[0]), calls[1..])
  }

  /** Every call keeps the heap tiled, aligned and coalesced. */
  lemma ApplyGood(L: Layout, call: Call)
    requires Good(L)
    ensures Good(Apply(L, call))
  {
    hide Follow, Good, Allocate, Release, Shrink, Needed;
    match call
    case Malloc(n) =>
      NeededExact(n);
      var i := FirstFit(L, Needed(n));
      if n > 0 && i < |L| { AllocateGood(L, i, Needed(n)); }
    case Free(p) =>
      var i := IndexOf(L, p);
      if i < |L| && L[i].used { ReleaseGood(L, i); }
    case Trim(p, n) =>
      NeededExact(n);
      var i := IndexOf(L, p);
      if i < |L| && L[i].used && Trims(L, i, n) { ShrinkGood(L, i, Needed(n)); }
  }

  /**
   What mem_malloc hands out: a block at the start of the first fit, of just the size needed if the
   rest can hold another block, and else the whole of it.
   */
  lemma MallocTakes(L: Layout, n: U16) returns (b: Block)
    requires Good(L) && n > 0 && FirstFit(L, Needed(n)) < |L|
    ensures var f := L[FirstFit(L, Needed(n))];
            && Used(Apply(L, Malloc(n))) == Used(L) + {b} && b !in Used(L) && b.used && b.start == f.start
            && Room(b) == (if Room(f) >= Needed(n) + 20 then Needed(n) else Room(f))
            && forall u :: u in Used(L) ==> u.end <= b.start || b.end <= u.start
  {
    hide Good, Used, Allocate;
    var i := FirstFit(L, Needed(n));
    AllocateUsed(L, i, Needed(n));
    b := if Splits(L[i], Needed(n)) then Front(L[i], Needed(n)) else L[i].(used := true);
  }

  /**
   What mem_trim leaves: the block cut to the size needed if its successor is free or if the rest can
   hold a block, and else the block as it was; all other blocks in use as before.
   */
  lemma TrimLeaves(L: Layout, p: int, n: U16) returns (b: Block)
    requires Good(L) && InUse(L, p) && Trims(L, IndexOf(L, p), n)
    ensures var i := IndexOf(L, p);
            && Used(Apply(L, Trim(p, n))) == Used(L) - {L[i]} + {b} && b.used && b.start == L[i].start
            && Room(b) ==
               if (i + 1 < |L| && !L[i + 1].used) || Room(L[i]) >= Needed(n) + 20 then Needed(n) else Room(L[i])
  {
    hide Good, Used, Shrink;
    b := ShrinkUsed(L, IndexOf(L, p), Needed(n));
  }

  /** The starts of the blocks in use. */
  function Live(L: Layout): set<nat> { set b | b in Used(L) :: b.start }

  /** What a caller holds after a call: a block handed out is added, a freed one dropped. */
  function Held(L: Layout, call: Call, held: set<nat>): set<nat> {
    match call
    case Malloc(n) =>
      if n > 0 && FirstFit(L, Needed(n)) < |L| then held + {L[FirstFit(L, Needed(n))].start} else held
    case Free(p) => set q | q in held && q != p
    case Trim(_, _) => held
  }

  /** Every call changes the blocks in use by its own block only, and hands out none twice. */
  lemma ApplyLive(L: Layout, call: Call)
    requires Good(L)
    ensures Live(Apply(L, call)) == Held(L, call, Live(L))
    ensures call.Malloc? && call.n > 0 && FirstFit(L, Needed(call.n)) < |L| ==>
              L[FirstFit(L, Needed(call.n))].start !in Live(L)
  {
    hide Good, Used, Allocate, Release, Shrink, Needed;
    match call
    case Malloc(n) =>
      NeededExact(n);
      var i := FirstFit(L, Needed(n));
      if n > 0 && i < |L| { AllocateLive(L, i, Needed(n)); }
    case Free(p) =>
      var i := IndexOf(L, p);
      if i < |L| && L[i].used { ReleaseLive(L, i); }
      IndexLive(L, p);
    case Trim(p, n) =>
      NeededExact(n);
      var i := IndexOf(L, p);
      if i < |L| && L[i].used && Trims(L, i, n) { ShrinkLive(L, i, Needed(n)); }
  }

  /** Blocks in use are told apart by their starts. */
  lemma LiveInjective(L: Layout)
    requires Good(L)
    ensures forall b, c :: b in Used(L) && c in Used(L) && b.start == c.start ==> b == c
  {
    forall b, c | b in Used(L) && c in Used(L) && b.start == c.start ensures b == c {
      var i :| 0 <= i < |L| && L[i] == b;
      var j :| 0 <= j < |L| && L[j] == c;
      if i < j { GoodDisjoint(L, i, j); } else if j < i { GoodDisjoint(L, j, i); }
    }
  }

  lemma IndexLive(L: Layout, p: int)
    requires Good(L)
    ensures var i := IndexOf(L, p); (i < |L| && L[i].used <==> exists q :: q in Live(L) && q == p)
  {
    var i := IndexOf(L, p);
    if i < |L| && L[i].used {
      assert L[i] in Used(L) && L[i].start in Live(L);
    }
    forall q | q in Live(L) && q == p ensures i < |L| && L[i].used {
      var b :| b in Used(L) && b.start == q;
      var j :| 0 <= j < |L| && L[j] == b;
      if i < j { GoodDisjoint(L, i, j); }
    }
  }

  lemma AllocateLive(L: Layout, i: nat, size: nat)
    requires Good(L) && i < |L| && Fits(L[i], size) && size >= MIN_SIZE_ALIGNED
    ensures Live(Allocate(L, i, size)) == Live(L) + {L[i].start} && L[i].start !in Live(L)
  {
    hide Good, Used, Allocate;
    AllocateUsed(L, i, size);
    var b := if Splits(L[i], size) then Front(L[i], size) else L[i].(used := true);
    GoodAround(L, i);
    forall u | u in Used(L) ensures u.start != b.start {
      assert u.end <= b.start || b.end <= u.start;
      UsedRoom(L, u);
    }
    assert b in Used(Allocate(L, i, size));
  }

  lemma UsedRoom(L: Layout, u: Block)
    requires Good(L) && u in Used(L)
    ensures u.start < u.end
  {
    var j :| 0 <= j < |L| && L[j] == u;
    GoodAround(L, j);
  }

  lemma ReleaseLive(L: Layout, i: nat)
    requires Good(L) && i < |L| && L[i].used
    ensures Live(Release(L, i)) == Live(L) - {L[i].start}
  {
    ReleaseUsed(L, i);
    LiveInjective(L);
    assert L[i] in Used(L);
    hide Good, Used, Release;
  }

  lemma ShrinkLive(L: Layout, i: nat, size: nat)
    requires Good(L) && i < |L| && L[i].used && MIN_SIZE_ALIGNED <= size <= Room(L[i])
    ensures Live(Shrink(L, i, size)) == Live(L)
  {
    var b := ShrinkUsed(L, i, size);
    assert L[i] in Used(L);
    hide Good, Used, Shrink;
  }

  /** What the callers hold after a run: the blocks handed out and not freed again. */
  function Outstanding(L: Layout, calls: seq<Call>, held: set<nat>): set<nat>
    decreases calls
  {
    if calls == [] then held
    else Outstanding(Apply(L, calls[0]), calls[1..], Held(L, calls[0], held))
  }

  /** Over every run, the heap stays good and the blocks in use are those the callers hold. */
  lemma {:induction false} RunGood(L: Layout, calls: seq<Call>)
    requires Good(L)
    ensures Good(Run(L, calls)) && Live(Run(L, calls)) == Outstanding(L, calls, Live(L))
    decreases calls
  {
    hide Good, Live, Apply, Held;
    if calls != [] {
      ApplyGood(L, calls[0]);
      ApplyLive(L, calls[0]);
      RunGood(Apply(L, calls[0]), calls[1..]);
    }
  }

  /** A heap with nothing in use is the one mem_init made. */
  lemma AllFree(L: Layout)
    requires Good(L) && Used(L) == {}
    ensures L == InitialLayout && forall p :: IsLowestFree(L, p) ==> p == 0
  {
    forall i | 0 <= i < |L| ensures !L[i].used {
      assert L[i] !in Used(L) && L[i] in L;
    }
    FreeAlone(L);
    GoodAround(L, 0);
    assert 0 in FreeStarts(L);
  }

  lemma FreeAlone(L: Layout)
    requires Good(L) && forall i :: 0 <= i < |L| ==> !L[i].used
    ensures |L| == 1
  {
    GoodAround(L, 0);
  }

  lemma NothingLive(L: Layout)
    requires Live(L) == {}
    ensures Used(L) == {}
  {
    assert forall b :: b in Used(L) ==> b.start in Live(L);
  }

  /**
   After any run in which everything handed out has been freed, the heap is as mem_init made it, free
   from its start.
   */
  lemma HeapRestored(calls: seq<Call>)
    requires Outstanding(InitialLayout, calls, {}) == {}
    ensures Run(InitialLayout, calls) == InitialLayout
    ensures forall p :: IsLowestFree(Run(InitialLayout, calls), p) ==> p == 0
  {
    InitialGood();
    assert Live(InitialLayout) == {};
    RunGood(InitialLayout, calls);
    NothingLive(Run(InitialLayout, calls));
    AllFree(Run(InitialLayout, calls));
  }

  function TotalSize(L: Layout): int {
    if L == [] then 0 else L[0].end - L[0].start + TotalSize(L[1..])
  }

  /** Conservation: block sizes, headers included, always sum to the heap size. */
  lemma SizesSum(calls: seq<Call>)
    ensures TotalSize(Run(InitialLayout, calls)) == MEM_SIZE
  {
    InitialGood();
    RunGood(InitialLayout, calls);
    SizesFrom(Run(InitialLayout, calls), 0, false);
  }

  lemma {:induction false} SizesFrom(L: Layout, at: nat, free: bool)
    requires Follow(L, at, free)
    ensures TotalSize(L) == EndOf(L, at) - at
  {
    if L != [] { SizesFrom(L[1..], L[0].end, !L[0].used); }
  }
}
