/** What the smallest pools of the memory heap give out. */
module MemHeapCases {
  import opened Bytes
  import opened DoubleLinks
  import opened HeapTiling
  import opened HeapBooks
  import opened HeapLive
  import opened HeapSteps
  import opened MemHeap

  /** The only block of a new pool of 76 bytes has 28 bytes. */
  lemma OneBlock(h: Heap)
    requires h.Valid() && h.size == 76 && h.ring == [0, 52] && h.frees == [0] && h.used == {52}
    ensures NextOf(h.ring, 0) == 52 && h.Room(0) == 28
  {
    hide Links, Live, FreeSum, NoTwoFree;
    IndexIs(HDR, MINIALLOC, 52, h.ring, 0);
  }

  /** A request of all the 28 bytes fails, because it is not below the number of free bytes; one of 20
      bytes gets the block. */
  method LastBytes() returns (h: Heap, p: int, q: int)
    ensures fresh(h) && h.Valid() && p == NULL && q != NULL
    ensures q - 24 in h.Owned() && |h.Owned()[q - 24]| >= 20
  {
    hide Links, Live, FreeSum, NoTwoFree, Kept, NextOf, HeapLive.Over;
    var mem := new Byte[76](_ => 0);
    h := new Heap(mem);
    OneBlock(h);
    p := h.Alloc(28);
    q := h.Alloc(20);
  }
}
