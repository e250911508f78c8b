/** A short run after which the search hint of the small memory heap has left a free block behind. */
module SmallMemCases {
  import opened Bytes
  import opened DoubleLinks
  import opened HeapTiling
  import opened HeapLive
  import opened SmallMem

  lemma OneOfTwoUsed(ring: seq<int>, used: set<int>, i: nat)
    requires NoTwoFree(ring, used) && i + 1 < |ring|
    ensures ring[i] in used || ring[i + 1] in used
  {
    assert ring[i] in used || After(ring, i) in used;
  }

  lemma AtMostThree(end: int, ring: seq<int>, used: set<int>)
    requires Tiled(HDR, 0, end, ring) && NoTwoFree(ring, used) && used == {0, end}
    ensures |ring| <= 3
  {
    hide NoTwoFree;
    if |ring| > 3 {
      TiledOrder(HDR, 0, end, ring, 0, 1);
      TiledOrder(HDR, 0, end, ring, 0, 2);
      TiledOrder(HDR, 0, end, ring, 1, |ring| - 1);
      TiledOrder(HDR, 0, end, ring, 2, |ring| - 1);
      OneOfTwoUsed(ring, used, 1);
    }
  }

  /** A heap whose only block in use is the first one has that block, perhaps a free one, and its end. */
  lemma OneInUse(h: Heap)
    requires h.Valid() && h.Owned().Keys == {0}
    ensures 2 <= |h.ring| <= 3 && h.ring[0] == 0 && h.ring[|h.ring| - 1] == h.size + HDR
    ensures NextOf(h.ring, 0) == h.ring[1] == HDR + |h.Owned()[0]|
    ensures h.used == {0, h.size + HDR} && 0 <= h.lfree
  {
    hide Live, Chained, FreeSum, NextOf, NoTwoFree, Distinct;
    var i := h.OwnedAt(0);
    TiledDistinct(HDR, 0, h.size + HDR, h.ring);
    IndexIs(HDR, 0, h.size + HDR, h.ring, 0);
    assert h.used == {0, h.size + HDR};
    AtMostThree(h.size + HDR, h.ring, h.used);
  }

  /** Behind the only block in use, which is short, there is a free block; a hint that is not the lowest
      free block stands at the end, and nothing is given out any more. */
  lemma HintAtEnd(h: Heap)
    requires h.Valid() && h.Owned().Keys == {0} && |h.Owned()[0]| == 12 && h.size == 100 && !h.Lowest()
    ensures h.Fits(24, 12) && h.NoneFits(12)
  {
    hide Live, Chained, FreeSum, NextOf, Tally, NoTwoFree;
    OneInUse(h);
    var x :| x in h.ring && x !in h.used && h.lfree > x;
    TiledDistinct(HDR, 0, h.size + HDR, h.ring);
    IndexIs(HDR, 0, h.size + HDR, h.ring, 1);
  }

  /** The only block of a new heap is free. */
  lemma AllFree(h: Heap)
    requires h.Valid() && h.ring == [0, h.size + HDR] && h.used == {h.size + HDR} && h.size == 100
    ensures h.Fits(0, 96) && forall y :: h.Fits(y, 96) ==> y == 0
  {
    hide Live, Chained, FreeSum, NextOf, Tally, NoTwoFree;
    IndexIs(HDR, 0, h.size + HDR, h.ring, 0);
  }

  /** In a heap of 100 bytes a block takes all of it and is then resized to 12 bytes. The hint is not
      lowered to the free block that the resize makes, and the next request of 12 bytes fails although
      that block fits it. */
  method MissedBlock() returns (h: Heap, p: int, q: int, r: int)
    ensures fresh(h) && h.Valid() && p != NULL && q == p && r == NULL
    ensures !h.Lowest() && h.Fits(24, 12)
  {
    hide Live, Chained, FreeSum, NextOf, Tally, NoTwoFree, HeapLive.Over, Heap.Lowest;
    var mem := new Byte[124](_ => 0);
    h := new Heap(mem);
    AllFree(h);
    p := h.Malloc(96);
    assert p == HDR;
    TakenAll(h);
    q := h.Realloc(p, 12);
    HintAtEnd(h);
    r := h.Malloc(12);
  }

  /** A block that takes the whole heap leaves no free one for the hint. */
  lemma TakenAll(h: Heap)
    requires h.Valid() && h.Owned().Keys == {0} && h.size == 100 && |h.Owned()[0]| >= 96
    ensures h.CutsFrom(HDR, 12) && h.StaysInPlace(0, 12)
  {
    hide Live, Chained, FreeSum, NextOf, Tally, NoTwoFree;
    OneInUse(h);
    TiledDistinct(HDR, 0, h.size + HDR, h.ring);
  }

  /** In a heap of 28 bytes a request of 20 bytes gets the block. */
  method FirstBytes() returns (h: Heap, p: int)
    ensures fresh(h) && h.Valid() && h.size == 28 && p != NULL && p - 12 in h.Owned() && |h.Owned()[p - 12]| >= 20
  {
    hide Live, Chained, FreeSum, NextOf, Tally, NoTwoFree, HeapLive.Over, Heap.Lowest;
    var mem := new Byte[52](_ => 0);
    h := new Heap(mem);
    OneBlock(h);
    p := h.Malloc(20);
  }

  /** One of 28 bytes does not, because a block must start more than its size before the end. */
  method LastBytes() returns (h: Heap, p: int)
    ensures fresh(h) && h.Valid() && h.size == 28 && p == NULL
  {
    hide Live, Chained, FreeSum, NextOf, Tally, NoTwoFree, HeapLive.Over, Heap.Lowest;
    var mem := new Byte[52](_ => 0);
    h := new Heap(mem);
    OneBlock(h);
    p := h.Malloc(28);
  }

  lemma OneBlock(h: Heap)
    requires h.Valid() && h.ring == [0, 40] && h.used == {40} && h.size == 28 && h.lfree == 0
    ensures h.Fits(0, 20) && NextOf(h.ring, 0) == 40 && forall y :: !h.Fits(y, 28)
    ensures !h.NoneHas(20)
  {
    hide Live, Chained, FreeSum, NextOf, Tally, NoTwoFree;
    IndexIs(HDR, 0, h.size + HDR, h.ring, 0);
  }
}
