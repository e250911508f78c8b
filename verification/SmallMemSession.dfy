/** Any run of rt_malloc, rt_free and rt_realloc, with the stores of the program in between: to the
    program the heap is a table of independent byte sequences. A block may be resized to nothing; it stays
    the program's, at the same place. */
module SmallMemSession {
  import opened Bytes
  import opened HeapProgram
  import S = SmallMem
  import HeapTiling
  import HeapLive

  /** The heap and the table of the program belong together. */
  ghost predicate Sound(h: S.Heap, ptrs: seq<int>, sizes: seq<nat>, blocks: seq<Block>)
    reads h, h.mem
  {
    h.Valid() && Holds(S.HDR, h.Owned(), ptrs, blocks) && Sizes(sizes, blocks) && Inside(h.size + S.HDR, ptrs)
  }

  /** The program's pointers are below the end of the heap, those to blocks without a byte too: rt_free
      and rt_realloc pass over all others. */
  ghost predicate Inside(end: int, ptrs: seq<int>) {
    forall k :: 0 <= k < |ptrs| ==> ptrs[k] < end
  }

  /** A block with bytes lies below the end of the heap. */
  lemma InHeap(h: S.Heap, p: int)
    requires h.Valid() && p - S.HDR in h.Owned()
    ensures 0 < p && (h.Owned()[p - S.HDR] != [] ==> p < h.size + S.HDR)
  {
    hide S.Tally, HeapTiling.NoTwoFree, S.Chained, HeapLive.Over, HeapLive.NextOf, HeapLive.Live;
    var i := h.OwnedAt(p - S.HDR);
  }

  // ---- one call, as a change of one block ---------------------------------------------------------------

  method CallAlloc(h: S.Heap, n: nat) returns (p: int, ghost y: Block)
    requires h.Valid()
    modifies h, h.mem
    ensures h.Valid() && NULL - S.HDR !in old(h.Owned()) && Fresh(n, y)
    ensures Changed(S.HDR, old(h.Owned()), h.Owned(), NULL, p) && HoldsAt(S.HDR, h.Owned(), p, y) && p < h.size + S.HDR
    ensures old(h.Lowest()) ==> h.Lowest()
  {
    hide S.Tally, HeapTiling.NoTwoFree, S.Chained, HeapLive.Over, HeapLive.NextOf, HeapLive.Live;
    h.NoNull();
    p := h.Malloc(n);
    if p != NULL { InHeap(h, p); }
    y := if p == NULL then Gone else Block(h.Owned()[p - S.HDR][..n]);
  }

  method CallFree(h: S.Heap, p: int, ghost x: Block)
    requires h.Valid() && HoldsAt(S.HDR, h.Owned(), p, x) && p < h.size + S.HDR
    modifies h, h.mem
    ensures h.Valid() && NULL - S.HDR !in old(h.Owned()) && Changed(S.HDR, old(h.Owned()), h.Owned(), p, NULL)
    ensures old(h.Lowest()) ==> h.Lowest()
  {
    hide S.Tally, HeapTiling.NoTwoFree, S.Chained, HeapLive.Over, HeapLive.NextOf, HeapLive.Live;
    h.NoNull();
    if x.Block? { InHeap(h, p); }
    h.Free(p);
  }

  method CallRealloc(h: S.Heap, p: int, n: nat, ghost x: Block) returns (q: int, ghost y: Block)
    requires h.Valid() && HoldsAt(S.HDR, h.Owned(), p, x) && p < h.size + S.HDR
    modifies h, h.mem
    ensures h.Valid() && NULL - S.HDR !in old(h.Owned())
    ensures q == NULL ==> h.Owned() == old(h.Owned())
    ensures q != NULL ==> Changed(S.HDR, old(h.Owned()), h.Owned(), p, q) && HoldsAt(S.HDR, h.Owned(), q, y)
    ensures q < h.size + S.HDR
    ensures q != NULL ==> if x.Gone? then Fresh(n, y) && y.Block? else Resized(n, x, y)
  {
    hide S.Tally, HeapTiling.NoTwoFree, S.Chained, HeapLive.Over, HeapLive.NextOf, HeapLive.Live;
    h.NoNull();
    if x.Block? { InHeap(h, p); }
    q := h.Realloc(p, n);
    y := Gone;
    if q != NULL {
      InHeap(h, q);
      y := Block(h.Owned()[q - S.HDR][..n]);
      if p != NULL {
        CommonFront(x.bytes, old(h.Owned())[p - S.HDR], h.Owned()[q - S.HDR], AlignUp(n), n);
      }
    }
  }

  method CallStore(h: S.Heap, p: int, i: nat, v: Byte, ghost x: Block)
    requires h.Valid() && HoldsAt(S.HDR, h.Owned(), p, x) && x.Block? && i < |x.bytes|
    modifies h.mem
    ensures h.Valid() && NULL - S.HDR !in old(h.Owned()) && Changed(S.HDR, old(h.Owned()), h.Owned(), p, p)
    ensures HoldsAt(S.HDR, h.Owned(), p, Block(WithByte(x.bytes, i, v))) && h.Lowest() == old(h.Lowest())
  {
    hide S.Tally, HeapTiling.NoTwoFree, S.Chained, HeapLive.Over, HeapLive.NextOf, HeapLive.Live;
    h.NoNull();
    h.Poke(p, i, v);
  }

  // ---- the operations of a program ------------------------------------------------------------------------

  method DoAlloc(h: S.Heap, n: nat, ptrs: seq<int>, sizes: seq<nat>, ghost blocks: seq<Block>)
      returns (ptrs': seq<int>, sizes': seq<nat>, ghost blocks': seq<Block>)
    requires Sound(h, ptrs, sizes, blocks)
    modifies h, h.mem
    ensures Sound(h, ptrs', sizes', blocks') && Does(false, Alloc(n), blocks, blocks')
    ensures old(h.Lowest()) ==> h.Lowest()
  {
    hide S.Tally, HeapTiling.NoTwoFree, S.Chained, HeapLive.Over, HeapLive.NextOf, HeapLive.Live, Holds, HoldsAt, Changed;
    ghost var was, y := h.Owned(), Gone;
    HoldsMore(S.HDR, was, ptrs, blocks);
    var p;
    p, y := CallAlloc(h, n);
    ptrs', sizes', blocks' := ptrs + [NULL], sizes + [n], blocks + [Gone];
    HoldsChanged(S.HDR, was, h.Owned(), ptrs', blocks', |ptrs|, p, y);
    ptrs', blocks' := ptrs'[|ptrs| := p], blocks'[|ptrs| := y];
  }

  method DoFree(h: S.Heap, k: nat, ptrs: seq<int>, sizes: seq<nat>, ghost blocks: seq<Block>)
      returns (ptrs': seq<int>, ghost blocks': seq<Block>)
    requires Sound(h, ptrs, sizes, blocks) && k < |ptrs| == |blocks|
    modifies h, h.mem
    ensures Sound(h, ptrs', sizes, blocks') && Does(false, Free(k), blocks, blocks')
    ensures old(h.Lowest()) ==> h.Lowest()
  {
    hide S.Tally, HeapTiling.NoTwoFree, S.Chained, HeapLive.Over, HeapLive.NextOf, HeapLive.Live, Holds, Changed;
    ghost var was := h.Owned();
    EntryHolds(S.HDR, was, ptrs, blocks, k);
    CallFree(h, ptrs[k], blocks[k]);
    assert HoldsAt(S.HDR, h.Owned(), NULL, Gone);
    hide HoldsAt;
    HoldsChanged(S.HDR, was, h.Owned(), ptrs, blocks, k, NULL, Gone);
    ptrs', blocks' := ptrs[k := NULL], blocks[k := Gone];
  }

  method DoRealloc(h: S.Heap, k: nat, n: nat, ptrs: seq<int>, sizes: seq<nat>, ghost blocks: seq<Block>)
      returns (ptrs': seq<int>, sizes': seq<nat>, ghost blocks': seq<Block>)
    requires Sound(h, ptrs, sizes, blocks) && k < |ptrs| == |blocks|
    modifies h, h.mem
    ensures Sound(h, ptrs', sizes', blocks') && Does(false, Realloc(k, n), blocks, blocks')
  {
    hide S.Tally, HeapTiling.NoTwoFree, S.Chained, HeapLive.Over, HeapLive.NextOf, HeapLive.Live, Holds, HoldsAt, Changed, SamePrefix;
    ghost var was, y := h.Owned(), Gone;
    EntryHolds(S.HDR, was, ptrs, blocks, k);
    var q;
    q, y := CallRealloc(h, ptrs[k], n, blocks[k]);
    ptrs', sizes', blocks' := ptrs, sizes, blocks;
    if q != NULL {
      HoldsChanged(S.HDR, was, h.Owned(), ptrs, blocks, k, q, y);
      ptrs', sizes', blocks' := ptrs[k := q], sizes[k := n], blocks[k := y];
    }
  }

  method DoStore(h: S.Heap, k: nat, i: nat, v: Byte, ptrs: seq<int>, sizes: seq<nat>, ghost blocks: seq<Block>)
      returns (ghost blocks': seq<Block>)
    requires Sound(h, ptrs, sizes, blocks) && k < |ptrs| == |blocks| && blocks[k].Block? && i < |blocks[k].bytes|
    modifies h.mem
    ensures Sound(h, ptrs, sizes, blocks') && Does(false, Store(k, i, v), blocks, blocks')
    ensures old(h.Lowest()) ==> h.Lowest()
  {
    hide S.Tally, HeapTiling.NoTwoFree, S.Chained, HeapLive.Over, HeapLive.NextOf, HeapLive.Live, Holds, HoldsAt, Changed;
    ghost var was := h.Owned();
    ghost var y := Block(WithByte(blocks[k].bytes, i, v));
    EntryHolds(S.HDR, was, ptrs, blocks, k);
    CallStore(h, ptrs[k], i, v, blocks[k]);
    HoldsChanged(S.HDR, was, h.Owned(), ptrs, blocks, k, ptrs[k], y);
    assert ptrs[k := ptrs[k]] == ptrs;
    blocks' := blocks[k := y];
  }

  method Perform(h: S.Heap, op: Op, ptrs: seq<int>, sizes: seq<nat>, ghost blocks: seq<Block>)
      returns (ptrs': seq<int>, sizes': seq<nat>, ghost blocks': seq<Block>)
    requires Sound(h, ptrs, sizes, blocks)
    modifies h, h.mem
    ensures Sound(h, ptrs', sizes', blocks') && Does(false, op, blocks, blocks')
    ensures old(h.Lowest()) && !op.Realloc? ==> h.Lowest()
  {
    hide S.Heap.Valid;
    ptrs', sizes', blocks' := ptrs, sizes, blocks;
    Table(h, ptrs, sizes, blocks);
    match op
    case Alloc(n) =>
      ptrs', sizes', blocks' := DoAlloc(h, n, ptrs, sizes, blocks);
    case Free(k) =>
      if k < |ptrs| {
        ptrs', blocks' := DoFree(h, k, ptrs, sizes, blocks);
      }
    case Realloc(k, n) =>
      if k < |ptrs| {
        ptrs', sizes', blocks' := DoRealloc(h, k, n, ptrs, sizes, blocks);
      }
    case Store(k, i, v) =>
      if k < |ptrs| && ptrs[k] != NULL && i < sizes[k] {
        blocks' := DoStore(h, k, i, v, ptrs, sizes, blocks);
      }
  }

  /** What the program can tell from its own table. */
  lemma Table(h: S.Heap, ptrs: seq<int>, sizes: seq<nat>, blocks: seq<Block>)
    requires Sound(h, ptrs, sizes, blocks)
    ensures |ptrs| == |sizes| == |blocks|
    ensures forall k :: 0 <= k < |ptrs| ==> (blocks[k].Gone? <==> ptrs[k] == NULL)
    ensures forall k :: 0 <= k < |ptrs| && ptrs[k] != NULL ==> sizes[k] == |blocks[k].bytes|
  {
    forall k | 0 <= k < |ptrs|
      ensures blocks[k].Gone? <==> ptrs[k] == NULL
    {
      EntryHolds(S.HDR, h.Owned(), ptrs, blocks, k);
    }
  }

  /** Any run of a program on a new heap. `tables` is what the program sees before and after each
      operation; in the end, what is in use is what the program still has. Unless the program resizes,
      the hint is the lowest free block all the time, so that rt_malloc gives out the lowest block that
      fits. */
  method Run(h: S.Heap, ops: seq<Op>) returns (ghost tables: seq<seq<Block>>)
    requires h.Valid() && h.Owned() == map[] && h.Lowest()
    modifies h, h.mem
    ensures |tables| == |ops| + 1 && tables[0] == []
    ensures forall i :: 0 <= i < |ops| ==> Does(false, ops[i], tables[i], tables[i + 1])
    ensures (forall i :: 0 <= i < |ops| ==> !ops[i].Realloc?) ==> h.Lowest()
    ensures h.Valid() && exists ptrs :: Holds(S.HDR, h.Owned(), ptrs, tables[|ops|])
  {
    hide S.Heap.Valid, Does, Holds;
    var ptrs, sizes := [], [];
    tables := [[]];
    HoldsNothing(S.HDR);
    for i := 0 to |ops|
      invariant |tables| == i + 1 && tables[0] == [] && Sound(h, ptrs, sizes, tables[i])
      invariant forall j :: 0 <= j < i ==> Does(false, ops[j], tables[j], tables[j + 1])
      invariant (forall j :: 0 <= j < i ==> !ops[j].Realloc?) ==> h.Lowest()
    {
      ghost var more;
      ptrs, sizes, more := Perform(h, ops[i], ptrs, sizes, tables[i]);
      tables := tables + [more];
    }
  }
}
