/** The bookkeeping of the memory heap: which blocks there are, which are used, which stand in the
    free list, and how many bytes are free. */
module HeapBooks {
  import opened DoubleLinks
  import opened HeapTiling

  const HDR: nat := 24
  const MINIALLOC: nat := 12

  /** The blocks tile the pool, the free list holds exactly the unused ones, and `avail` is the sum
      of their payloads. */
  ghost predicate Books(end: int, ring: seq<int>, used: set<int>, frees: seq<int>, avail: int) {
    && Tiled(HDR, MINIALLOC, end, ring)
    && end in used && (forall x :: x in used ==> x in ring)
    && (forall x :: x in frees <==> x in ring && x !in used)
    && Distinct(frees)
    && avail == FreeSum(HDR, ring, used)
  }

  /** A free block becomes used. */
  lemma BooksMark(end: int, ring: seq<int>, used: set<int>, frees: seq<int>, avail: int, i: nat, k: nat)
    requires Books(end, ring, used, frees, avail) && i + 1 < |ring| && k < |frees| && frees[k] == ring[i]
    ensures Books(end, ring, used + {ring[i]}, Dropped(frees, k), avail - (ring[i + 1] - ring[i] - HDR))
  {
    hide Tiled, FreeSum, Dropped, Distinct;
    assert ring[i] in frees;
    TiledDistinct(HDR, MINIALLOC, end, ring);
    InDropped(frees, k);
    SumMarked(HDR, ring, used, i);
  }

  /** A used block becomes free and goes to the head of the free list. */
  lemma BooksUnmark(end: int, ring: seq<int>, used: set<int>, frees: seq<int>, avail: int, i: nat)
    requires Books(end, ring, used, frees, avail) && i + 1 < |ring| && ring[i] in used
    ensures Books(end, ring, used - {ring[i]}, [ring[i]] + frees, avail + (ring[i + 1] - ring[i] - HDR))
  {
    hide FreeSum;
    TiledDistinct(HDR, MINIALLOC, end, ring);
    SumMarked(HDR, ring, used - {ring[i]}, i);
    assert used - {ring[i]} + {ring[i]} == used;
  }

  /** The end of a block becomes a free block of its own. */
  lemma BooksSplit(end: int, ring: seq<int>, used: set<int>, frees: seq<int>, avail: int, i: nat, x: int)
    requires Books(end, ring, used, frees, avail) && i + 1 < |ring| && x % 4 == 0
    requires ring[i] + HDR + MINIALLOC <= x && x + HDR + MINIALLOC <= ring[i + 1]
    ensures Books(end, Inserted(ring, i, x), used, [x] + frees,
                  if ring[i] in used then avail + (ring[i + 1] - x - HDR) else avail - HDR)
  {
    hide Tiled, FreeSum, Inserted;
    FitsBetween(HDR, MINIALLOC, end, ring, i, x);
    TiledInserted(HDR, MINIALLOC, end, ring, i, x);
    InInserted(ring, i, x);
    SumInserted(HDR, ring, used, i, x);
  }

  /** A free block is merged into the block before it, free or used. */
  lemma BooksMerge(end: int, ring: seq<int>, used: set<int>, frees: seq<int>, avail: int, i: nat, k: nat)
    requires Books(end, ring, used, frees, avail) && 0 < i < |ring| - 1 && k < |frees| && frees[k] == ring[i]
    ensures Books(end, Dropped(ring, i), used, Dropped(frees, k),
                  if ring[i - 1] in used then avail - (ring[i + 1] - ring[i] - HDR) else avail + HDR)
  {
    hide Tiled, FreeSum, Dropped, Distinct;
    assert ring[i] in frees;
    TiledDistinct(HDR, MINIALLOC, end, ring);
    TiledDropped(HDR, MINIALLOC, end, ring, i);
    InDropped(ring, i);
    InDropped(frees, k);
    SumDropped(HDR, ring, used, i);
  }
}
