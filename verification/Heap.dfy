/**
 The allocator of mem.c (one heap, no pools): headers indexed by their offset in `ram`, linked by
 offsets, with a cached lowest free block. Every method is proved against the layout functions.
 */
module Heap {
  import opened Machine
  import opened HeapLayout

  /** The `struct mem` fields by offset; offsets that are no block start hold leftovers. */
  datatype Headers = Headers(next: seq<nat>, prev: seq<nat>, used: seq<bool>) {
    predicate Sized() { |next| == |prev| == |used| == MEM_SIZE + 1 }

    function SetNext(p: nat, v: nat): (h: Headers)
      requires Sized() && p <= MEM_SIZE
      ensures h.Sized()
    {
      this.(next := next[p := v])
    }

    function SetPrev(p: nat, v: nat): (h: Headers)
      requires Sized() && p <= MEM_SIZE
      ensures h.Sized()
    {
      this.(prev := prev[p := v])
    }

    function SetUsed(p: nat, v: bool): (h: Headers)
      requires Sized() && p <= MEM_SIZE
      ensures h.Sized()
    {
      this.(used := used[p := v])
    }
  }

  /** Blocks in address order, without regard to which are free. */
  ghost predicate Ordered(L: Layout) {
    && L != [] && L[0].start == 0
    && (forall i :: 0 <= i < |L| ==> Extends(L, i))
    && (forall i, j :: 0 <= i < j < |L| ==> L[i].start < L[j].start)
  }

  predicate Extends(L: Layout, i: nat)
    requires i < |L|
  {
    L[i].start < L[i].end == NextStart(L, i) <= MEM_SIZE
  }

  function NextStart(L: Layout, i: nat): nat
    requires i < |L|
  {
    if i + 1 < |L| then L[i + 1].start else MEM_SIZE
  }

  lemma GoodOrdered(L: Layout)
    requires Good(L)
    ensures Ordered(L)
  {
    forall i | 0 <= i < |L| ensures Extends(L, i) {
      GoodAround(L, i);
    }
    forall i, j | 0 <= i < j < |L| ensures L[i].start < L[j].start { GoodDisjoint(L, i, j); }
  }

  /** The header of block `i` shows its extent, its use, and its predecessor. */
  predicate HeaderOk(h: Headers, L: Layout, i: nat)
    requires h.Sized() && i < |L|
  {
    && L[i].start <= MEM_SIZE
    && h.next[L[i].start] == L[i].end && h.used[L[i].start] == L[i].used
    && h.prev[L[i].start] == if i == 0 then 0 else L[i - 1].start
  }

  /** Leftover headers are marked free: only blocks are marked as used. */
  ghost predicate OnlyBlocks(h: Headers, L: Layout)
    requires h.Sized()
  {
    forall q :: 0 <= q < MEM_SIZE && h.used[q] ==> StartsBlock(L, q)
  }

  predicate StartsBlock(L: Layout, q: nat) { exists i :: 0 <= i < |L| && L[i].start == q }

  /** All headers show the layout, and the end marker is in place. */
  ghost predicate Shows(h: Headers, L: Layout) {
    && h.Sized() && OnlyBlocks(h, L)
    && h.used[MEM_SIZE] && h.next[MEM_SIZE] == MEM_SIZE && h.prev[MEM_SIZE] == MEM_SIZE
    && forall i :: 0 <= i < |L| ==> HeaderOk(h, L, i)
  }

  /** Writing the header of the second half of a block that is cut at `ptr2`. */
  function CutHeaders(h: Headers, ptr: nat, ptr2: nat, end: nat): Headers
    requires h.Sized() && ptr <= MEM_SIZE && ptr2 <= MEM_SIZE && end <= MEM_SIZE
  {
    var h1 := h.SetUsed(ptr2, false).SetNext(ptr2, end).SetPrev(ptr2, ptr).SetNext(ptr, ptr2).SetUsed(ptr, true);
    if end != MEM_SIZE then h1.SetPrev(end, ptr2) else h1
  }

  /** What a cut leaves alone and what it writes. */
  lemma CutEffect(h: Headers, ptr: nat, ptr2: nat, end: nat)
    requires h.Sized() && ptr < ptr2 < end <= MEM_SIZE
    ensures var h' := CutHeaders(h, ptr, ptr2, end);
            && h'.Sized()
            && h'.next[ptr] == ptr2 && h'.used[ptr] && h'.prev[ptr] == h.prev[ptr]
            && h'.next[ptr2] == end && !h'.used[ptr2] && h'.prev[ptr2] == ptr
            && h'.next[end] == h.next[end] && h'.used[end] == h.used[end]
            && h'.prev[end] == (if end == MEM_SIZE then h.prev[end] else ptr2)
            && forall q :: 0 <= q <= MEM_SIZE && q != ptr && q != ptr2 && q != end ==>
                 h'.next[q] == h.next[q] && h'.prev[q] == h.prev[q] && h'.used[q] == h.used[q]
  {
  }

  /** A later block starts at or after the end of an earlier one. */
  lemma OrderedEnd(L: Layout, i: nat, j: nat)
    requires Ordered(L) && i < j < |L|
    ensures L[i].end <= L[j].start < L[j].end <= MEM_SIZE && (j > i + 1 ==> L[i].end < L[j].start) &&
            (j == i + 1 ==> L[i].end == L[j].start)
  {
    assert Extends(L, i) && Extends(L, j);
    assert j > i + 1 ==> L[i + 1].start < L[j].start;
  }

  /** A layout that has the same starts, but for blocks that are free or new. */
  lemma OnlyKept(h: Headers, L: Layout, h': Headers, L': Layout)
    requires h.Sized() && h'.Sized() && OnlyBlocks(h, L)
    requires forall q :: 0 <= q < MEM_SIZE && h'.used[q] ==> h.used[q] || StartsBlock(L', q)
    requires forall i :: 0 <= i < |L| && L[i].start < MEM_SIZE && h'.used[L[i].start] ==> StartsBlock(L', L[i].start)
    ensures OnlyBlocks(h', L')
  {
  }

  lemma CutShows(h: Headers, L: Layout, i: nat, ptr2: nat)
    requires Ordered(L) && Shows(h, L) && i < |L| && L[i].start < ptr2 < L[i].end <= MEM_SIZE
    ensures Shows(CutHeaders(h, L[i].start, ptr2, L[i].end),
                  Replace(L, i, [Block(L[i].start, ptr2, true), Block(ptr2, L[i].end, false)]))
  {
    hide CutHeaders;
    var b := L[i];
    assert Extends(L, i);
    var L', h' := Replace(L, i, [Block(b.start, ptr2, true), Block(ptr2, b.end, false)]),
        CutHeaders(h, b.start, ptr2, b.end);
    CutEffect(h, b.start, ptr2, b.end);
    forall j | 0 <= j < |L'| ensures HeaderOk(h', L', j) {
      if j < i {
        assert HeaderOk(h, L, j);
        OrderedEnd(L, j, i);
      } else if j == i {
        assert HeaderOk(h, L, i);
      } else if j > i + 1 {
        assert HeaderOk(h, L, j - 1) && L'[j] == L[j - 1];
        OrderedEnd(L, i, j - 1);
      }
    }
    assert L'[i].start == b.start;
    forall j | 0 <= j < |L| ensures StartsBlock(L', L[j].start) {
      assert L[j].start == L'[if j <= i then j else j + 1].start;
    }
    OnlyKept(h, L, h', L');
  }

  /** Marking a block changes nothing but its own flag. */
  lemma MarkShows(h: Headers, L: Layout, i: nat, used: bool)
    requires Ordered(L) && Shows(h, L) && i < |L| && L[i].start < MEM_SIZE
    ensures Shows(h.SetUsed(L[i].start, used), L[i := L[i].(used := used)])
  {
    var h', L' := h.SetUsed(L[i].start, used), L[i := L[i].(used := used)];
    forall j | 0 <= j < |L'| ensures HeaderOk(h', L', j) {
      assert HeaderOk(h, L, j);
      assert j < i ==> L[j].start < L[i].start;
      assert i < j ==> L[i].start < L[j].start;
    }
    forall j | 0 <= j < |L| ensures StartsBlock(L', L[j].start) { assert L[j].start == L'[j].start; }
    OnlyKept(h, L, h', L');
  }

  /** Linking the block at `ptr` to `end`, over the header between them. */
  function LinkHeaders(h: Headers, ptr: nat, end: nat): Headers
    requires h.Sized() && ptr <= MEM_SIZE && end <= MEM_SIZE
  {
    var h1 := h.SetNext(ptr, end);
    if end != MEM_SIZE then h1.SetPrev(end, ptr) else h1
  }

  lemma MergeShows(h: Headers, L: Layout, i: nat)
    requires Ordered(L) && Shows(h, L) && i + 1 < |L| && !L[i].used && !L[i + 1].used &&
             L[i].start < L[i + 1].end <= MEM_SIZE
    ensures Shows(LinkHeaders(h, L[i].start, L[i + 1].end), Merge(L, i))
  {
    var h', L' := LinkHeaders(h, L[i].start, L[i + 1].end), Merge(L, i);
    OrderedEnd(L, i, i + 1);
    forall j | 0 <= j < |L'| ensures HeaderOk(h', L', j) {
      if j < i {
        assert HeaderOk(h, L, j);
        OrderedEnd(L, j, i);
      } else if j == i {
        assert HeaderOk(h, L, i);
      } else {
        assert HeaderOk(h, L, j + 1) && L'[j] == L[j + 1];
        OrderedEnd(L, i + 1, j + 1);
      }
    }
    MergeOnly(h, L, i);
  }

  lemma MergeOnly(h: Headers, L: Layout, i: nat)
    requires Shows(h, L) && i + 1 < |L| && !L[i + 1].used && L[i].start <= MEM_SIZE && L[i + 1].end <= MEM_SIZE
    ensures OnlyBlocks(LinkHeaders(h, L[i].start, L[i + 1].end), Merge(L, i))
  {
    hide HeaderOk;
    var h', L' := LinkHeaders(h, L[i].start, L[i + 1].end), Merge(L, i);
    HeaderAt(h, L, i + 1);
    forall j | 0 <= j < |L| && j != i + 1 ensures StartsBlock(L', L[j].start) {
      assert L[j].start == L'[if j <= i then j else j - 1].start;
    }
    OnlyKept(h, L, h', L');
  }

  lemma MergeOrdered(L: Layout, i: nat)
    requires Ordered(L) && i + 1 < |L|
    ensures Ordered(Merge(L, i))
  {
    var L' := Merge(L, i);
    OrderedEnd(L, i, i + 1);
    forall j | 0 <= j < |L'| ensures Extends(L', j) {
      assert j < i ==> Extends(L, j);
      assert j == i ==> Extends(L, i + 1);
      assert j > i ==> Extends(L, j + 1);
    }
  }

  /** Trimming before a free block moves its header down to `ptr2`. */
  lemma MoveShows(h: Headers, L: Layout, i: nat, ptr2: nat)
    requires Ordered(L) && Shows(h, L) && i + 1 < |L| && L[i].used && !L[i + 1].used && L[i + 1].end <= MEM_SIZE
    requires L[i].start < ptr2 < L[i].end <= MEM_SIZE
    ensures Shows(CutHeaders(h, L[i].start, ptr2, L[i + 1].end),
                  L[..i] + [Block(L[i].start, ptr2, true), Block(ptr2, L[i + 1].end, false)] + L[i + 2..])
  {
    hide CutHeaders;
    OrderedEnd(L, i, i + 1);
    var b := L[i];
    var L' := L[..i] + [Block(b.start, ptr2, true), Block(ptr2, L[i + 1].end, false)] + L[i + 2..];
    var h' := CutHeaders(h, b.start, ptr2, L[i + 1].end);
    CutEffect(h, b.start, ptr2, L[i + 1].end);
    forall j | 0 <= j < |L'| ensures HeaderOk(h', L', j) {
      if j < i {
        assert HeaderOk(h, L, j);
        OrderedEnd(L, j, i);
      } else if j == i {
        assert HeaderOk(h, L, i);
      } else if j > i + 1 {
        assert HeaderOk(h, L, j) && L'[j] == L[j];
        OrderedEnd(L, i + 1, j);
      }
    }
    assert HeaderOk(h, L, i + 1);
    assert L'[i].start == b.start;
    forall j | 0 <= j < |L| && j != i + 1 ensures StartsBlock(L', L[j].start) { assert L[j].start == L'[j].start; }
    OnlyKept(h, L, h', L');
  }

  // ---------- The allocator ----------

  /** The cached pointer, moved if it points at a header that is about to go. */
  function Redirected(p: nat, gone: nat, kept: nat): nat { if p == gone then kept else p }

  /** What mem_trim returns, or that it stops in a failed LWIP_ASSERT, which loops forever here. */
  datatype TrimResult = Kept | Null | Halted

  class Heap {
    var h: Headers
    var lfree: nat
    ghost var layout: Layout

    ghost predicate Valid()
      reads this
    {
      Good(layout) && Shows(h, layout) && IsLowestFree(layout, lfree)
    }

    /** mem_init */
    constructor ()
      ensures Valid() && layout == InitialLayout && lfree == 0
    {
      h := Headers(seq(MEM_SIZE + 1, _ => MEM_SIZE), seq(MEM_SIZE + 1, i => if i == 0 then 0 else MEM_SIZE),
                   seq(MEM_SIZE + 1, i => i == MEM_SIZE));
      lfree, layout := 0, InitialLayout;
      InitialGood();
    }

    /** The part of mem_malloc that takes a block, splitting it if the rest can hold another. */
    method TakeBlock(ptr: nat, size: nat, ghost i: nat)
      requires Good(layout) && Shows(h, layout) && i < |layout| && layout[i].start == ptr && Fits(layout[i], size)
      requires size % MEM_ALIGNMENT == 0 && size >= MIN_SIZE_ALIGNED
      modifies this`h, this`layout
      ensures layout == Allocate(old(layout), i, size) && Good(layout) && Shows(h, layout)
    {
      hide Follow, CutHeaders, HeaderOk;
      GoodOrdered(layout);
      AllocateGood(layout, i, size);
      GoodAround(layout, i);
      HeaderAt(h, layout, i);
      if h.next[ptr] - (ptr + SIZEOF_STRUCT_MEM) >= size + SIZEOF_STRUCT_MEM + MIN_SIZE_ALIGNED {
        var ptr2 := ptr + SIZEOF_STRUCT_MEM + size;
        CutShows(h, layout, i, ptr2);
        h := CutHeaders(h, ptr, ptr2, h.next[ptr]);
      } else {
        MarkShows(h, layout, i, true);
        h := h.SetUsed(ptr, true);
      }
      layout := Allocate(layout, i, size);
    }

    /**
     mem_malloc: first fit; the result is the offset of the data, or none for NULL. Exactly one block
     more is in use, as large as needed, or the whole first fit if the rest could not hold a block.
     */
    method Malloc(sizeIn: U16) returns (r: Option<nat>, ghost b: Block)
      requires Valid()
      modifies this
      ensures Valid()
      ensures layout == Apply(old(layout), Call.Malloc(sizeIn))
      ensures var L, i := old(layout), FirstFit(old(layout), Needed(sizeIn));
              r == if sizeIn > 0 && i < |L| then Some(L[i].start + SIZEOF_STRUCT_MEM) else None
      ensures r.None? ==> layout == old(layout)
      ensures r.Some? ==>
                var f := old(layout)[FirstFit(old(layout), Needed(sizeIn))];
                && Used(layout) == Used(old(layout)) + {b} && b !in Used(old(layout)) && b.used
                && b.start == f.start == r.value - 8
                && Room(b) == if Room(f) >= Needed(sizeIn) + 20 then Needed(sizeIn) else Room(f)
    {
      hide Follow, FreeStarts, IsLowestFree, Needed, Needed16, Allocate, HeaderOk, FirstFit, Used, Apply;
      MallocApplies(layout, sizeIn);
      NeededExact(sizeIn);
      b := Block(0, 0, false);
      if sizeIn == 0 {
        return None, b;
      }
      var size := Needed16(sizeIn);
      if size > MEM_SIZE || size < sizeIn {
        NothingFits(layout, Needed(sizeIn));
        return None, b;
      }
      ghost var i;
      r, i := FindFit(size);
      if r.Some? {
        b := MallocTakes(layout, sizeIn);
        TakeFirst(r.value, size, i);
        r := Some(r.value + SIZEOF_STRUCT_MEM);
      }
    }

    /** The search of mem_malloc, from the lowest free block on. */
    method FindFit(size: nat) returns (r: Option<nat>, ghost i: nat)
      requires Valid() && size % MEM_ALIGNMENT == 0 && MIN_SIZE_ALIGNED <= size <= MEM_SIZE
      ensures i == FirstFit(layout, size) && (r.Some? <==> i < |layout|) && (r.Some? ==> r.value == layout[i].start)
      ensures r.Some? && r.value == lfree ==> forall j :: 0 <= j < i ==> layout[j].used
    {
      hide Follow, FreeStarts, IsLowestFree, HeaderOk, FirstFit;
      var ptr := lfree;
      ghost var L, lowest := layout, LowestIndex(layout, lfree);
      i := lowest;
      while ptr < MEM_SIZE - size
        invariant i <= |L| && ptr == (if i < |L| then L[i].start else MEM_SIZE)
        invariant lowest <= i && (i > lowest ==> ptr > lfree)
        invariant forall j :: 0 <= j < i ==> !Fits(L[j], size)
        decreases |L| - i
      {
        HeaderAt(h, L, i);
        GoodAround(L, i);
        if !h.used[ptr] && h.next[ptr] - (ptr + SIZEOF_STRUCT_MEM) >= size {
          FirstFitIs(L, size, i);
          return Some(ptr), i;
        }
        ptr, i := h.next[ptr], i + 1;
      }
      NoneAbove(L, i, size);
      r, i := None, |L|;
    }

    /** Take the block that was found, and move the lowest free block up if it was that one. */
    method TakeFirst(ptr: nat, size: nat, ghost i: nat)
      requires Valid() && i < |layout| && layout[i].start == ptr && Fits(layout[i], size)
      requires size % MEM_ALIGNMENT == 0 && size >= MIN_SIZE_ALIGNED
      requires ptr == lfree ==> forall j :: 0 <= j < i ==> layout[j].used
      modifies this
      ensures Valid() && layout == Allocate(old(layout), i, size)
    {
      hide Follow, FreeStarts, IsLowestFree, Allocate, HeaderOk;
      AllocateFront(layout, i, size);
      TakeBlock(ptr, size, i);
      if ptr == lfree {
        AdjustLfree(ptr, i);
      } else {
        AllocateLowest(old(layout), i, size, lfree);
      }
    }

    /** Find the next free block from the one just taken, which was the lowest. */
    method AdjustLfree(ptr: nat, ghost i: nat)
      requires Good(layout) && Shows(h, layout) && i < |layout| && layout[i].start == ptr
      requires forall j :: 0 <= j < i ==> layout[j].used
      modifies this`lfree
      ensures IsLowestFree(layout, lfree)
    {
      GoodAround(layout, i);
      var cur := ptr;
      ghost var k := i;
      while cur != MEM_SIZE && h.used[cur]
        invariant k <= |layout| && cur == (if k < |layout| then layout[k].start else MEM_SIZE) <= MEM_SIZE
        invariant forall j :: 0 <= j < k ==> layout[j].used
        decreases |layout| - k
      {
        assert HeaderOk(h, layout, k);
        GoodAround(layout, k);
        cur, k := h.next[cur], k + 1;
      }
      if k < |layout| {
        assert HeaderOk(h, layout, k);
        GoodAround(layout, k);
      }
      LowestFrom(layout, k);
      lfree := cur;
    }

    /** The first half of plug_holes: join the block just freed with a free successor. */
    method PlugForward(mem: nat, ghost i: nat)
      requires Ordered(layout) && Shows(h, layout) && IsLowestFree(layout, lfree)
      requires i < |layout| && layout[i].start == mem && !layout[i].used && mem < MEM_SIZE
      modifies this
      ensures layout == MergeNext(old(layout), i)
      ensures Ordered(layout) && Shows(h, layout) && IsLowestFree(layout, lfree)
    {
      hide LinkHeaders, FreeStarts, IsLowestFree, Merge;
      ghost var L := layout;
      LowestBelow(L, i, lfree);
      assert HeaderOk(h, L, i) && Extends(L, i);
      var nmem := h.next[mem];
      if mem != nmem && !h.used[nmem] && nmem != MEM_SIZE {
        assert HeaderOk(h, L, i + 1) && Extends(L, i + 1);
        MergeShows(h, L, i);
        MergeLowest(L, i, lfree);
        MergeOrdered(L, i);
        lfree := Redirected(lfree, nmem, mem);
        h := LinkHeaders(h, mem, h.next[nmem]);
        layout := Merge(L, i);
      } else if i + 1 < |L| {
        assert HeaderOk(h, L, i + 1) && Extends(L, i + 1);
      }
    }

    /** The second half: join it with a free predecessor. */
    method PlugBackward(mem: nat, ghost i: nat)
      requires Ordered(layout) && Shows(h, layout) && IsLowestFree(layout, lfree)
      requires i < |layout| && layout[i].start == mem && !layout[i].used && mem < MEM_SIZE
      modifies this
      ensures layout == MergePrevious(old(layout), i)
      ensures Shows(h, layout) && IsLowestFree(layout, lfree)
    {
      hide LinkHeaders, FreeStarts, IsLowestFree, Merge;
      ghost var L := layout;
      assert HeaderOk(h, L, i) && Extends(L, i);
      if i > 0 {
        assert HeaderOk(h, L, i - 1) && Extends(L, i - 1);
      }
      var pmem := h.prev[mem];
      if pmem != mem && !h.used[pmem] {
        MergeShows(h, L, i - 1);
        LowestBelow(L, i - 1, lfree);
        MergeLowest(L, i - 1, lfree);
        lfree := Redirected(lfree, mem, pmem);
        h := LinkHeaders(h, pmem, h.next[mem]);
        layout := Merge(L, i - 1);
      }
    }

    /** plug_holes */
    method PlugHoles(mem: nat, ghost i: nat)
      requires Ordered(layout) && Shows(h, layout) && IsLowestFree(layout, lfree)
      requires i < |layout| && layout[i].start == mem && !layout[i].used && mem < MEM_SIZE
      modifies this
      ensures layout == MergePrevious(MergeNext(old(layout), i), i)
      ensures Shows(h, layout) && IsLowestFree(layout, lfree)
    {
      hide FreeStarts, IsLowestFree, Shows, Ordered;
      PlugForward(mem, i);
      PlugBackward(mem, i);
    }

    /**
     mem_free, given NULL as none. The block whose data starts at `rmem` is freed if it is in use; every
     other pointer, also that of a block that has been freed before, fails an assertion.
     */
    method Free(rmem: Option<int>) returns (r: Outcome)
      requires Valid()
      modifies this
      ensures Valid()
      ensures r.Halted? <==> rmem.Some? && !InUse(old(layout), rmem.value - SIZEOF_STRUCT_MEM)
      ensures r.Halted? || rmem.None? ==> h == old(h) && lfree == old(lfree) && layout == old(layout)
      ensures rmem.Some? ==> layout == Apply(old(layout), Call.Free(rmem.value - SIZEOF_STRUCT_MEM))
      ensures rmem.Some? && r.Returned? ==>
                Used(layout) == Used(old(layout)) - {old(layout)[IndexOf(old(layout), rmem.value - 8)]}
    {
      hide Follow, Good, FreeStarts, IsLowestFree, Release, LinkValid, HeaderOk, Shows, Used;
      if rmem.None? {
        return Returned;
      }
      ghost var i := IndexOf(layout, rmem.value - SIZEOF_STRUCT_MEM);
      ShowsSized(h, layout);
      FreeAccepts(h, layout, rmem.value);
      if rmem.value % MEM_ALIGNMENT != 0 {
        return Outcome.Halted;
      }
      var mem := rmem.value - SIZEOF_STRUCT_MEM;
      if mem < 0 || rmem.value + MIN_SIZE_ALIGNED > MEM_SIZE {
        return Outcome.Halted;
      }
      if !h.used[mem] {
        return Outcome.Halted;
      }
      if !LinkValid(h, mem) {
        return Outcome.Halted;
      }
      ReleaseUsed(layout, i);
      FreeBlock(mem, i);
      r := Returned;
    }

    /** The part of mem_free behind the checks. */
    method FreeBlock(mem: nat, ghost i: nat)
      requires Valid() && i < |layout| && layout[i].used && layout[i].start == mem
      modifies this
      ensures Valid() && layout == Release(old(layout), i)
    {
      hide Follow, FreeStarts, IsLowestFree, MergeNext, MergePrevious, HeaderOk, Shows;
      GoodAround(layout, i);
      GoodOrdered(layout);
      MarkShows(h, layout, i, false);
      FreedLowest(layout, i, lfree);
      ReleaseGood(layout, i);
      MarkOrdered(layout, i, false);
      ShowsSized(h, layout);
      h := h.SetUsed(mem, false);
      if mem < lfree {
        lfree := mem;
      }
      layout := layout[i := layout[i].(used := false)];
      PlugHoles(mem, i);
    }

    /** mem_trim of the block in use whose data starts at `rmem`. */
    method Trim(rmem: nat, newSize: U16) returns (r: TrimResult, ghost b: Block)
      requires Valid()
      requires var i := IndexOf(layout, rmem - SIZEOF_STRUCT_MEM); i < |layout| && layout[i].used
      modifies this
      ensures Valid()
      ensures var L, n := old(layout), Needed(newSize);
              var i := IndexOf(L, rmem - SIZEOF_STRUCT_MEM);
              && (r.Null? <==> n > MEM_SIZE)
              && (r.Halted? <==> n <= MEM_SIZE && (n > Room(L[i]) || (Splits(L[i], n) && i + 1 == |L|)))
              && layout == Apply(L, Call.Trim(rmem - SIZEOF_STRUCT_MEM, newSize))
              && (!r.Kept? ==> layout == L)
              && (r.Kept? ==>
                    && Used(layout) == Used(L) - {L[i]} + {b} && b.used && b.start == L[i].start == rmem - 8
                    && Room(b) == if (i + 1 < |L| && !L[i + 1].used) || Room(L[i]) >= n + 20 then n else Room(L[i]))
    {
      hide Follow, Good, FreeStarts, IsLowestFree, Needed, Needed16, Shrink, HeaderOk, Used;
      NeededExact(newSize);
      b := Block(0, 0, false);
      var newsize := Needed16(newSize);
      if newsize > MEM_SIZE || newsize < newSize {
        return Null, b;
      }
      ghost var i := IndexOf(layout, rmem - SIZEOF_STRUCT_MEM);
      ghost var L := layout;
      GoodAround(L, i);
      HeaderAt(h, L, i);
      var ptr := rmem - SIZEOF_STRUCT_MEM;
      var size := h.next[ptr] - ptr - SIZEOF_STRUCT_MEM;
      if newsize > size {
        return TrimResult.Halted, b;
      }
      if newsize == size {
        ShrinkNothing(L, i);
        b := TrimLeaves(L, rmem - SIZEOF_STRUCT_MEM, newSize);
        return Kept, b;
      }
      var mem2 := h.next[ptr];
      NextUse(h, L, i);
      if h.used[mem2] && newsize + SIZEOF_STRUCT_MEM + MIN_SIZE_ALIGNED <= size && mem2 == MEM_SIZE {
        return TrimResult.Halted, b;
      }
      b := TrimLeaves(L, rmem - SIZEOF_STRUCT_MEM, newSize);
      ShrinkBlock(ptr, newsize, i);
      r := Kept;
    }

    /** The part of mem_trim that gives the tail of a block back. */
    method ShrinkBlock(ptr: nat, newsize: nat, ghost i: nat)
      requires Valid() && i < |layout| && layout[i].used && layout[i].start == ptr
      requires newsize % MEM_ALIGNMENT == 0 && MIN_SIZE_ALIGNED <= newsize < Room(layout[i])
      modifies this
      ensures Valid() && layout == Shrink(old(layout), i, newsize)
    {
      hide Follow, FreeStarts, IsLowestFree, CutHeaders, HeaderOk, Shrink;
      ghost var L := layout;
      ShrinkLowest(L, i, newsize, lfree);
      ShrinkGood(L, i, newsize);
      GoodAround(L, i);
      HeaderAt(h, L, i);
      NextUse(h, L, i);
      var mem2, ptr2 := h.next[ptr], ptr + SIZEOF_STRUCT_MEM + newsize;
      if !h.used[mem2] {
        ShrinkMoves(h, L, i, newsize);
        GoodAround(L, i + 1);
        HeaderAt(h, L, i + 1);
        if lfree == mem2 {
          lfree := ptr2;
        }
        h := CutHeaders(h, ptr, ptr2, h.next[mem2]);
        layout := Shrink(L, i, newsize);
      } else if newsize + SIZEOF_STRUCT_MEM + MIN_SIZE_ALIGNED <= h.next[ptr] - ptr - SIZEOF_STRUCT_MEM {
        ShrinkCuts(h, L, i, newsize);
        if ptr2 < lfree {
          lfree := ptr2;
        }
        h := CutHeaders(h, ptr, ptr2, mem2);
        layout := Shrink(L, i, newsize);
      } else {
        ShrinkKeeps(L, i, newsize);
      }
    }
  }

  lemma MallocApplies(L: Layout, n: U16)
    ensures Apply(L, Call.Malloc(n)) ==
            if n > 0 && FirstFit(L, Needed(n)) < |L| then Allocate(L, FirstFit(L, Needed(n)), Needed(n)) else L
  {
  }

  lemma ShowsSized(h: Headers, L: Layout)
    requires Shows(h, L)
    ensures h.Sized()
  {
  }

  /** Where a header is marked as used, there is a block in use. */
  lemma UsedStarts(h: Headers, L: Layout, q: nat)
    requires Shows(h, L) && h.Sized() && q < MEM_SIZE && h.used[q]
    ensures var i := IndexOf(L, q); i < |L| && L[i].used && L[i].start == q
  {
    hide HeaderOk;
    assert StartsBlock(L, q);
    HeaderAt(h, L, IndexOf(L, q));
  }

  lemma HeaderAt(h: Headers, L: Layout, i: nat)
    requires Shows(h, L) && i < |L|
    ensures L[i].start <= MEM_SIZE && h.next[L[i].start] == L[i].end && h.used[L[i].start] == L[i].used
  {
    assert HeaderOk(h, L, i);
  }

  /** The header after block `i` is free exactly when the next block is; the end marker is in use. */
  lemma NextUse(h: Headers, L: Layout, i: nat)
    requires Good(L) && Shows(h, L) && i < |L|
    ensures L[i].end <= MEM_SIZE && (L[i].end == MEM_SIZE <==> i + 1 == |L|)
    ensures h.used[L[i].end] <==> i + 1 == |L| || L[i + 1].used
  {
    GoodAround(L, i);
    if i + 1 < |L| {
      GoodAround(L, i + 1);
      HeaderAt(h, L, i + 1);
    }
  }

  lemma ShrinkMoves(h: Headers, L: Layout, i: nat, size: nat)
    requires Good(L) && Shows(h, L) && i + 1 < |L| && L[i].used && !L[i + 1].used && size < Room(L[i])
    ensures L[i].end < L[i + 1].end <= MEM_SIZE
    ensures Shows(CutHeaders(h, L[i].start, L[i].start + SIZEOF_STRUCT_MEM + size, L[i + 1].end), Shrink(L, i, size))
  {
    hide CutHeaders;
    GoodOrdered(L);
    OrderedEnd(L, i, i + 1);
    MoveShows(h, L, i, L[i].start + SIZEOF_STRUCT_MEM + size);
  }

  lemma ShrinkCuts(h: Headers, L: Layout, i: nat, size: nat)
    requires Good(L) && Shows(h, L) && i < |L| && L[i].used && Splits(L[i], size)
    requires i + 1 < |L| ==> L[i + 1].used
    ensures L[i].end <= MEM_SIZE
    ensures Shows(CutHeaders(h, L[i].start, L[i].start + SIZEOF_STRUCT_MEM + size, L[i].end), Shrink(L, i, size))
  {
    hide CutHeaders;
    GoodOrdered(L);
    GoodAround(L, i);
    CutShows(h, L, i, L[i].start + SIZEOF_STRUCT_MEM + size);
  }

  lemma ShrinkKeeps(L: Layout, i: nat, size: nat)
    requires i < |L| && !Splits(L[i], size) && (i + 1 < |L| ==> L[i + 1].used)
    ensures Shrink(L, i, size) == L
  {
  }

  lemma AllocateFront(L: Layout, i: nat, size: nat)
    requires i < |L|
    ensures var L' := Allocate(L, i, size);
            |L'| > i && L'[i].start == L[i].start && forall j :: 0 <= j < i ==> L'[j] == L[j]
  {
  }

  /** The checks of mem_free let exactly the pointers to blocks in use pass. */
  lemma FreeAccepts(h: Headers, L: Layout, rmem: int)
    requires Good(L) && Shows(h, L) && h.Sized()
    ensures var mem := rmem - SIZEOF_STRUCT_MEM;
            InUse(L, mem) <==>
            rmem % 4 == 0 && mem >= 0 && rmem + 12 <= MEM_SIZE && h.used[mem] && LinkValid(h, mem)
  {
    hide Follow, LinkValid, HeaderOk, Shows;
    var mem := rmem - SIZEOF_STRUCT_MEM;
    var i := IndexOf(L, mem);
    if i < |L| {
      GoodAround(L, i);
      GoodOrdered(L);
      LinkValidBlock(h, L, i);
      HeaderAt(h, L, i);
    }
    if 0 <= mem < MEM_SIZE && h.used[mem] { UsedStarts(h, L, mem); }
  }

  /** mem_link_valid */
  predicate LinkValid(h: Headers, mem: nat)
    requires h.Sized() && mem <= MEM_SIZE
  {
    !(h.next[mem] > MEM_SIZE || h.prev[mem] > MEM_SIZE ||
      (h.prev[mem] != mem && h.next[h.prev[mem]] != mem) ||
      (h.next[mem] != MEM_SIZE && h.prev[h.next[mem]] != mem))
  }

  lemma LinkValidBlock(h: Headers, L: Layout, i: nat)
    requires Ordered(L) && Shows(h, L) && i < |L| && L[i].start <= MEM_SIZE
    ensures LinkValid(h, L[i].start)
  {
    assert HeaderOk(h, L, i) && Extends(L, i);
    if i > 0 { assert HeaderOk(h, L, i - 1) && Extends(L, i - 1); }
    if i + 1 < |L| { assert HeaderOk(h, L, i + 1); }
  }

  lemma MarkOrdered(L: Layout, i: nat, used: bool)
    requires Ordered(L) && i < |L|
    ensures Ordered(L[i := L[i].(used := used)])
  {
    var L' := L[i := L[i].(used := used)];
    forall j | 0 <= j < |L'| ensures Extends(L', j) { assert Extends(L, j); }
  }

  // ---------- Runs ----------

  /** The calls that fail an assertion: a free of anything but a block in use, or a trim that mem_trim refuses. */
  predicate Stops(L: Layout, call: Call) {
    match call
    case Malloc(_) => false
    case Free(p) => !InUse(L, p)
    case Trim(p, size) =>
      var i, n := IndexOf(L, p), Needed(size);
      i < |L| && L[i].used && n <= MEM_SIZE && (n > Room(L[i]) || (Splits(L[i], n) && i + 1 == |L|))
  }

  /** One call; mem_trim is called for blocks in use only, as it demands. */
  method Perform(heap: Heap, call: Call) returns (r: Outcome)
    requires heap.Valid()
    modifies heap
    ensures heap.Valid() && heap.layout == Apply(old(heap.layout), call)
    ensures r.Halted? <==> Stops(old(heap.layout), call)
    ensures call.Malloc? ==> r.Returned?
    ensures call.Free? ==> (r.Halted? <==> !InUse(old(heap.layout), call.p))
    ensures call.Trim? && InUse(old(heap.layout), call.p) && Needed(call.n) <= MEM_SIZE ==>
              var L, i := old(heap.layout), IndexOf(old(heap.layout), call.p);
              (r.Halted? <==> Needed(call.n) > Room(L[i]) || (Room(L[i]) >= Needed(call.n) + 20 && i + 1 == |L|))
  {
    hide Follow, Good, FreeStarts, IsLowestFree, Needed, HeaderOk, Release, Shrink, Allocate, Used;
    r := Returned;
    match call
    case Malloc(n) =>
      var _, _ := heap.Malloc(n);
    case Free(p) =>
      r := heap.Free(Some(p + SIZEOF_STRUCT_MEM));
    case Trim(p, n) =>
      UsedExactly(heap.h, heap.layout, p);
      if 0 <= p < MEM_SIZE && heap.h.used[p] {
        var t, _ := heap.Trim(p + SIZEOF_STRUCT_MEM, n);
        r := if t.Halted? then Outcome.Halted else Returned;
      }
  }

  /** Headers marked as used are exactly those of the blocks in use. */
  lemma UsedExactly(h: Headers, L: Layout, p: int)
    requires Good(L) && Shows(h, L)
    ensures h.Sized() && (0 <= p < MEM_SIZE && h.used[p] <==> IndexOf(L, p) < |L| && L[IndexOf(L, p)].used)
  {
    hide HeaderOk, Shows;
    ShowsSized(h, L);
    if 0 <= p < MEM_SIZE && h.used[p] { UsedStarts(h, L, p); }
    var i := IndexOf(L, p);
    if i < |L| {
      GoodAround(L, i);
      HeaderAt(h, L, i);
    }
  }

  lemma {:induction false} RunSnoc(L: Layout, calls: seq<Call>, k: nat)
    requires k < |calls|
    ensures Run(L, calls[..k + 1]) == Apply(Run(L, calls[..k]), calls[k])
    decreases k
  {
    hide Apply;
    if k == 0 {
      assert calls[..1] == [calls[0]] && [calls[0]][1..] == [];
    } else {
      assert calls[..k + 1][1..] == calls[1..][..k] && calls[..k][1..] == calls[1..][..k - 1];
      RunSnoc(Apply(L, calls[0]), calls[1..], k - 1);
    }
  }

  /**
   Over every run of calls, up to the first one that halts, the headers with their links, the use
   marks and `lfree` show the layout of the run. When everything handed out has been freed, the heap is
   as mem_init made it, with `lfree` at its start.
   */
  method RunCalls(heap: Heap, calls: seq<Call>) returns (r: Outcome, n: nat)
    requires heap.Valid()
    modifies heap
    ensures heap.Valid() && n <= |calls| && heap.layout == Run(old(heap.layout), calls[..n])
    ensures forall k :: 0 <= k < n ==> !Stops(Run(old(heap.layout), calls[..k]), calls[k])
    ensures if r.Returned? then n == |calls| else n < |calls| && Stops(heap.layout, calls[n])
    ensures old(heap.layout) == InitialLayout && Outstanding(InitialLayout, calls[..n], {}) == {} ==>
              heap.layout == InitialLayout && heap.lfree == 0
  {
    hide Good, Shows, IsLowestFree, Apply, Stops, Outstanding;
    r, n := Returned, 0;
    while n < |calls|
      invariant heap.Valid() && n <= |calls| && heap.layout == Run(old(heap.layout), calls[..n])
      invariant r.Returned? && forall k :: 0 <= k < n ==> !Stops(Run(old(heap.layout), calls[..k]), calls[k])
    {
      StopsSame(heap.layout, calls[n]);
      r := Perform(heap, calls[n]);
      if r.Halted? {
        break;
      }
      RunSnoc(old(heap.layout), calls, n);
      n := n + 1;
    }
    if old(heap.layout) == InitialLayout && Outstanding(InitialLayout, calls[..n], {}) == {} {
      HeapRestored(calls[..n]);
    }
  }

  /** A call that halts has not changed the layout. */
  lemma StopsSame(L: Layout, call: Call)
    ensures Stops(L, call) ==> Apply(L, call) == L
  {
  }

  /** The assertion of mem_trim is within reach: allocate all of the heap, and trim it to one byte. */
  method TrimOfLastBlockHalts() returns (r: TrimResult)
    ensures r.Halted? <==> MEM_SIZE >= 40
  {
    var heap := new Heap();
    var p, _ := heap.Malloc(MEM_SIZE - SIZEOF_STRUCT_MEM);
    assert FirstFit(InitialLayout, MEM_SIZE - SIZEOF_STRUCT_MEM) == 0;
    ghost var b;
    r, b := heap.Trim(p.value, 1);
  }

  /** Freeing a pointer twice halts, whatever the heap and the pointer: at the second call if not at the first. */
  method DoubleFreeHalts(heap: Heap, rmem: int) returns (first: Outcome, second: Outcome)
    requires heap.Valid()
    modifies heap
    ensures heap.Valid() && second.Halted?
    ensures first.Returned? <==> InUse(old(heap.layout), rmem - SIZEOF_STRUCT_MEM)
  {
    hide Good, Shows, IsLowestFree, Release;
    first := heap.Free(Some(rmem));
    NotInUseAgain(old(heap.layout), rmem - SIZEOF_STRUCT_MEM);
    second := heap.Free(Some(rmem));
  }

  lemma NotInUseAgain(L: Layout, p: int)
    requires Good(L)
    ensures !InUse(FreeAt(L, p), p)
  {
    hide Good, Release;
    ApplyGood(L, Call.Free(p));
    ApplyLive(L, Call.Free(p));
    IndexLive(FreeAt(L, p), p);
  }

  /** That is within reach: allocate after mem_init, and free what was allocated twice. */
  method FreeTwice() returns (first: Outcome, second: Outcome)
    ensures first.Returned? && second.Halted?
  {
    var heap := new Heap();
    var p, _ := heap.Malloc(MIN_SIZE_ALIGNED);
    assert FirstFit(InitialLayout, MIN_SIZE_ALIGNED) == 0;
    first, second := DoubleFreeHalts(heap, p.value);
  }
}
