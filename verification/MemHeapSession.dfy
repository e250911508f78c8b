/** Any run of rt_memheap_alloc, rt_memheap_free and rt_memheap_realloc, with the stores of the program
    in between: to the program the heap is a table of independent byte sequences. */
module MemHeapSession {
  import opened Bytes
  import opened HeapProgram
  import M = MemHeap
  import opened HeapSteps
  import opened HeapBooks
  import HeapLive
  import DoubleLinks

  /** The heap and the table of the program belong together. */
  ghost predicate Sound(h: M.Heap, ptrs: seq<int>, sizes: seq<nat>, blocks: seq<Block>)
    reads h, h.mem
  {
    h.Valid() && Holds(HDR, h.Owned(), ptrs, blocks) && Sizes(sizes, blocks)
  }

  // ---- one call, as a change of one block ---------------------------------------------------------------

  method CallAlloc(h: M.Heap, n: nat) returns (p: int, ghost y: Block)
    requires h.Valid()
    modifies h, h.mem
    ensures h.Valid() && NULL - HDR !in old(h.Owned()) && Fresh(n, y)
    ensures Changed(HDR, old(h.Owned()), h.Owned(), NULL, p) && HoldsAt(HDR, h.Owned(), p, y)
  {
    hide DoubleLinks.Links, Kept, HeapLive.Over, HeapLive.Live;
    h.NoNull();
    p := h.Alloc(n);
    y := if p == NULL then Gone else Block(h.Owned()[p - HDR][..n]);
  }

  /** A block is freed, be it by a resize to nothing. */
  method CallFree(h: M.Heap, p: int, resize: bool, ghost x: Block)
    requires h.Valid() && HoldsAt(HDR, h.Owned(), p, x)
    modifies h, h.mem
    ensures h.Valid() && NULL - HDR !in old(h.Owned()) && Changed(HDR, old(h.Owned()), h.Owned(), p, NULL)
  {
    hide DoubleLinks.Links, Kept, HeapLive.Over, HeapLive.Live;
    h.NoNull();
    if resize {
      var _ := h.Realloc(p, 0);
    } else {
      h.Free(p);
    }
  }

  method CallRealloc(h: M.Heap, p: int, n: nat, ghost x: Block) returns (q: int, ghost y: Block)
    requires h.Valid() && HoldsAt(HDR, h.Owned(), p, x) && n > 0
    modifies h, h.mem
    ensures h.Valid() && NULL - HDR !in old(h.Owned())
    ensures q == NULL ==> h.Owned() == old(h.Owned())
    ensures q != NULL ==> Changed(HDR, old(h.Owned()), h.Owned(), p, q) && HoldsAt(HDR, h.Owned(), q, y)
    ensures q != NULL ==> if x.Gone? then Fresh(n, y) && y.Block? else Resized(n, x, y)
  {
    hide DoubleLinks.Links, Kept, HeapLive.Over, HeapLive.Live;
    h.NoNull();
    q := h.Realloc(p, n);
    y := Gone;
    if q != NULL {
      y := Block(h.Owned()[q - HDR][..n]);
      if p != NULL {
        CommonPrefix(x.bytes, old(h.Owned())[p - HDR], h.Owned()[q - HDR], n);
      }
    }
  }

  method CallStore(h: M.Heap, p: int, i: nat, v: Byte, ghost x: Block)
    requires h.Valid() && HoldsAt(HDR, h.Owned(), p, x) && x.Block? && i < |x.bytes|
    modifies h.mem
    ensures h.Valid() && NULL - HDR !in old(h.Owned()) && Changed(HDR, old(h.Owned()), h.Owned(), p, p)
    ensures HoldsAt(HDR, h.Owned(), p, Block(WithByte(x.bytes, i, v)))
  {
    hide DoubleLinks.Links, Kept, HeapLive.Over, HeapLive.Live;
    h.NoNull();
    h.Poke(p, i, v);
  }

  // ---- the operations of a program ------------------------------------------------------------------------

  method DoAlloc(h: M.Heap, n: nat, ptrs: seq<int>, sizes: seq<nat>, ghost blocks: seq<Block>)
      returns (ptrs': seq<int>, sizes': seq<nat>, ghost blocks': seq<Block>)
    requires Sound(h, ptrs, sizes, blocks)
    modifies h, h.mem
    ensures Sound(h, ptrs', sizes', blocks') && Does(true, Alloc(n), blocks, blocks')
  {
    hide DoubleLinks.Links, Kept, HeapLive.Over, HeapLive.Live, Holds, HoldsAt, Changed;
    ghost var was, y := h.Owned(), Gone;
    HoldsMore(HDR, was, ptrs, blocks);
    var p;
    p, y := CallAlloc(h, n);
    ptrs', sizes', blocks' := ptrs + [NULL], sizes + [n], blocks + [Gone];
    HoldsChanged(HDR, was, h.Owned(), ptrs', blocks', |ptrs|, p, y);
    ptrs', blocks' := ptrs'[|ptrs| := p], blocks'[|ptrs| := y];
  }

  method DoFree(h: M.Heap, k: nat, resize: bool, ptrs: seq<int>, sizes: seq<nat>, ghost blocks: seq<Block>)
      returns (ptrs': seq<int>, ghost blocks': seq<Block>)
    requires Sound(h, ptrs, sizes, blocks) && k < |ptrs| == |blocks|
    modifies h, h.mem
    ensures Sound(h, ptrs', sizes, blocks') && Does(true, Free(k), blocks, blocks')
  {
    hide DoubleLinks.Links, Kept, HeapLive.Over, HeapLive.Live, Holds, Changed;
    ghost var was := h.Owned();
    EntryHolds(HDR, was, ptrs, blocks, k);
    CallFree(h, ptrs[k], resize, blocks[k]);
    assert HoldsAt(HDR, h.Owned(), NULL, Gone);
    hide HoldsAt;
    HoldsChanged(HDR, was, h.Owned(), ptrs, blocks, k, NULL, Gone);
    ptrs', blocks' := ptrs[k := NULL], blocks[k := Gone];
  }

  method DoRealloc(h: M.Heap, k: nat, n: nat, ptrs: seq<int>, sizes: seq<nat>, ghost blocks: seq<Block>)
      returns (ptrs': seq<int>, sizes': seq<nat>, ghost blocks': seq<Block>)
    requires Sound(h, ptrs, sizes, blocks) && k < |ptrs| == |blocks| && n > 0
    modifies h, h.mem
    ensures Sound(h, ptrs', sizes', blocks') && Does(true, Realloc(k, n), blocks, blocks')
  {
    hide DoubleLinks.Links, Kept, HeapLive.Over, HeapLive.Live, Holds, HoldsAt, Changed, SamePrefix;
    ghost var was, y := h.Owned(), Gone;
    EntryHolds(HDR, was, ptrs, blocks, k);
    var q;
    q, y := CallRealloc(h, ptrs[k], n, blocks[k]);
    ptrs', sizes', blocks' := ptrs, sizes, blocks;
    if q != NULL {
      HoldsChanged(HDR, was, h.Owned(), ptrs, blocks, k, q, y);
      ptrs', sizes', blocks' := ptrs[k := q], sizes[k := n], blocks[k := y];
    }
  }

  method DoStore(h: M.Heap, k: nat, i: nat, v: Byte, ptrs: seq<int>, sizes: seq<nat>, ghost blocks: seq<Block>)
      returns (ghost blocks': seq<Block>)
    requires Sound(h, ptrs, sizes, blocks) && k < |ptrs| == |blocks| && blocks[k].Block? && i < |blocks[k].bytes|
    modifies h.mem
    ensures Sound(h, ptrs, sizes, blocks') && Does(true, Store(k, i, v), blocks, blocks')
  {
    hide DoubleLinks.Links, Kept, HeapLive.Over, HeapLive.Live, Holds, HoldsAt, Changed;
    ghost var was := h.Owned();
    ghost var y := Block(WithByte(blocks[k].bytes, i, v));
    EntryHolds(HDR, was, ptrs, blocks, k);
    CallStore(h, ptrs[k], i, v, blocks[k]);
    HoldsChanged(HDR, was, h.Owned(), ptrs, blocks, k, ptrs[k], y);
    assert ptrs[k := ptrs[k]] == ptrs;
    blocks' := blocks[k := y];
  }

  method Perform(h: M.Heap, op: Op, ptrs: seq<int>, sizes: seq<nat>, ghost blocks: seq<Block>)
      returns (ptrs': seq<int>, sizes': seq<nat>, ghost blocks': seq<Block>)
    requires Sound(h, ptrs, sizes, blocks)
    modifies h, h.mem
    ensures Sound(h, ptrs', sizes', blocks') && Does(true, op, blocks, blocks')
  {
    hide M.Heap.Valid;
    ptrs', sizes', blocks' := ptrs, sizes, blocks;
    Table(h, ptrs, sizes, blocks);
    match op
    case Alloc(n) =>
      ptrs', sizes', blocks' := DoAlloc(h, n, ptrs, sizes, blocks);
    case Free(k) =>
      if k < |ptrs| {
        ptrs', blocks' := DoFree(h, k, false, ptrs, sizes, blocks);
      }
    case Realloc(k, n) =>
      if k < |ptrs| && n == 0 {
        ptrs', blocks' := DoFree(h, k, true, ptrs, sizes, blocks);
      } else if k < |ptrs| {
        ptrs', sizes', blocks' := DoRealloc(h, k, n, ptrs, sizes, blocks);
      }
    case Store(k, i, v) =>
      if k < |ptrs| && ptrs[k] != NULL && i < sizes[k] {
        blocks' := DoStore(h, k, i, v, ptrs, sizes, blocks);
      }
  }

  /** What the program can tell from its own table. */
  lemma Table(h: M.Heap, ptrs: seq<int>, sizes: seq<nat>, blocks: seq<Block>)
    requires Sound(h, ptrs, sizes, blocks)
    ensures |ptrs| == |sizes| == |blocks|
    ensures forall k :: 0 <= k < |ptrs| ==> (blocks[k].Gone? <==> ptrs[k] == NULL)
    ensures forall k :: 0 <= k < |ptrs| && ptrs[k] != NULL ==> sizes[k] == |blocks[k].bytes|
  {
    forall k | 0 <= k < |ptrs|
      ensures blocks[k].Gone? <==> ptrs[k] == NULL
    {
      EntryHolds(HDR, h.Owned(), ptrs, blocks, k);
    }
  }

  /** Any run of a program on a new heap. `tables` is what the program sees before and after each
      operation; in the end, what is in use is what the program still has. */
  method Run(h: M.Heap, ops: seq<Op>) returns (ghost tables: seq<seq<Block>>)
    requires h.Valid() && h.Owned() == map[]
    modifies h, h.mem
    ensures |tables| == |ops| + 1 && tables[0] == []
    ensures forall i :: 0 <= i < |ops| ==> Does(true, ops[i], tables[i], tables[i + 1])
    ensures h.Valid() && exists ptrs :: Holds(HDR, h.Owned(), ptrs, tables[|ops|])
  {
    hide M.Heap.Valid, Does, Holds;
    var ptrs, sizes := [], [];
    tables := [[]];
    HoldsNothing(HDR);
    for i := 0 to |ops|
      invariant |tables| == i + 1 && tables[0] == [] && Sound(h, ptrs, sizes, tables[i])
      invariant forall j :: 0 <= j < i ==> Does(true, ops[j], tables[j], tables[j + 1])
    {
      ghost var more;
      ptrs, sizes, more := Perform(h, ops[i], ptrs, sizes, tables[i]);
      tables := tables + [more];
    }
  }
}
