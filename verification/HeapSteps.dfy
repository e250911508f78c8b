/** What the operations of the memory heap do to its books and to the live memory. */
module HeapSteps {
  import opened Bytes
  import opened DoubleLinks
  import opened HeapTiling
  import opened HeapBooks
  import opened HeapLive

  /** Books that are balanced, with no two free neighbours. */
  ghost predicate Kept(end: int, ring: seq<int>, used: set<int>, frees: seq<int>, avail: int) {
    Books(end, ring, used, frees, avail) && NoTwoFree(ring, used)
  }

  /** The free block `i`, the `k`-th of the free list, is cut at `x` and its front given out. */
  lemma SplitTaken(end: int, ring: seq<int>, used: set<int>, frees: seq<int>, avail: int, m: seq<Byte>, m': seq<Byte>, i: nat, k: nat, x: int)
    requires Kept(end, ring, used, frees, avail) && |m| == end + HDR
    requires i + 1 < |ring| && k < |frees| && frees[k] == ring[i] && x % 4 == 0
    requires ring[i] + HDR + MINIALLOC <= x && x + HDR + MINIALLOC <= ring[i + 1]
    requires SameBut(HDR, m, m', x)
    ensures x !in ring && x !in frees && 0 <= ring[i] < x <= end
    ensures Kept(end, Inserted(ring, i, x), used + {ring[i]}, [x] + Dropped(frees, k), avail - (x - ring[i]))
    ensures HeapLive.Over(HDR, MINIALLOC, end, Inserted(ring, i, x), used + {ring[i]}, m')
    ensures Live(HDR, MINIALLOC, end, Inserted(ring, i, x), used + {ring[i]}, m') == Live(HDR, MINIALLOC, end, ring, used, m)[ring[i] := m'[ring[i] + HDR..x]]
    ensures ring[i] !in Live(HDR, MINIALLOC, end, ring, used, m)
  {
    hide FreeSum, Live, Inserted, Dropped, Tiled, NoTwoFree;
    InsertedAt(ring, i, x);
    var h, r := ring[i], Inserted(ring, i, x);
    assert h in frees && h !in used;
    FitsBetween(HDR, MINIALLOC, end, ring, i, x);
    IndexIs(HDR, MINIALLOC, end, ring, i);
    Bounds(HDR, MINIALLOC, end, ring, h);
    LiveWritten(HDR, MINIALLOC, end, ring, used, m, m', i);
    BooksSplit(end, ring, used, frees, avail, i, x);
    LiveInserted(HDR, MINIALLOC, end, ring, used, m', i, x);
    BooksMark(end, r, used, [x] + frees, avail - HDR, i, k + 1);
    DropBehind(x, frees, k);
    LiveMark(HDR, MINIALLOC, end, r, used, m', h);
    IndexIs(HDR, MINIALLOC, end, r, i);
    ApartTaken(ring, used, i, x);
  }

  lemma InsertedAt(ring: seq<int>, i: nat, x: int)
    requires i < |ring|
    ensures var r := Inserted(ring, i, x); |r| == |ring| + 1 && r[i] == ring[i] && r[i + 1] == x
  {
  }

  lemma DropBehind(x: int, frees: seq<int>, k: nat)
    requires k < |frees|
    ensures Dropped([x] + frees, k + 1) == [x] + Dropped(frees, k)
  {
  }

  /** The end of the used block `i` becomes a free block; the block behind it is used. */
  lemma UsedCut(end: int, ring: seq<int>, used: set<int>, frees: seq<int>, avail: int, m: seq<Byte>, m': seq<Byte>, i: nat, x: int)
    requires Books(end, ring, used, frees, avail) && |m| == end + HDR
    requires i + 1 < |ring| && ring[i] in used && x % 4 == 0
    requires ring[i] + HDR + MINIALLOC <= x && x + HDR + MINIALLOC <= ring[i + 1]
    requires SameBut(HDR, m, m', x)
    ensures x !in ring && x !in frees && 0 <= ring[i] < x <= end
    ensures Books(end, Inserted(ring, i, x), used, [x] + frees, avail + (ring[i + 1] - x - HDR))
    ensures Live(HDR, MINIALLOC, end, Inserted(ring, i, x), used, m') == Live(HDR, MINIALLOC, end, ring, used, m)[ring[i] := m[ring[i] + HDR..x]]
    ensures HeapLive.Over(HDR, MINIALLOC, end, ring, used, m) && HeapLive.Over(HDR, MINIALLOC, end, Inserted(ring, i, x), used, m')
    ensures ring[i] in Live(HDR, MINIALLOC, end, ring, used, m)
  {
    hide FreeSum, Live, Inserted, Tiled;
    FitsBetween(HDR, MINIALLOC, end, ring, i, x);
    IndexIs(HDR, MINIALLOC, end, ring, i);
    Bounds(HDR, MINIALLOC, end, ring, ring[i]);
    assert m'[ring[i] + HDR..x] == m[ring[i] + HDR..x];
    LiveWritten(HDR, MINIALLOC, end, ring, used, m, m', i);
    BooksSplit(end, ring, used, frees, avail, i, x);
    LiveInserted(HDR, MINIALLOC, end, ring, used, m', i, x);
  }

  /** The border between the used block `i` and the free block behind it moves to `x`, where a new
      header is written. */
  lemma BorderMoved(end: int, ring: seq<int>, used: set<int>, frees: seq<int>, avail: int, m: seq<Byte>, m': seq<Byte>, i: nat, k: nat, x: int)
    requires Kept(end, ring, used, frees, avail) && |m| == end + HDR
    requires i + 2 < |ring| && ring[i] in used && k < |frees| && frees[k] == ring[i + 1]
    requires x % 4 == 0 && ring[i] + HDR + MINIALLOC <= x && x + HDR + MINIALLOC <= ring[i + 2]
    requires SameBut(HDR, m, m', x)
    ensures 0 <= ring[i] < x <= end && x !in Dropped(ring, i + 1) && x !in Dropped(frees, k)
    ensures Kept(end, Inserted(Dropped(ring, i + 1), i, x), used, [x] + Dropped(frees, k), avail + (ring[i + 1] - x))
    ensures HeapLive.Over(HDR, MINIALLOC, end, Inserted(Dropped(ring, i + 1), i, x), used, m')
    ensures Live(HDR, MINIALLOC, end, Inserted(Dropped(ring, i + 1), i, x), used, m') == Live(HDR, MINIALLOC, end, ring, used, m)[ring[i] := m[ring[i] + HDR..x]]
    ensures ring[i] in Live(HDR, MINIALLOC, end, ring, used, m) && SamePrefix(Live(HDR, MINIALLOC, end, ring, used, m)[ring[i]], m[ring[i] + HDR..x])
  {
    hide FreeSum, Live, Tiled, Inserted, Dropped, NoTwoFree;
    FreeAbsorbed(end, ring, used, frees, avail, m, i, k);
    DroppedAt(ring, i + 1);
    var r := Dropped(ring, i + 1);
    var a := avail - (ring[i + 2] - ring[i + 1] - HDR);
    UsedCut(end, r, used, Dropped(frees, k), a, m, m', i, x);
    ApartCut(r, used, i, x);
    PayloadOf(HDR, MINIALLOC, end, ring, used, m, i);
    PrefixOf(m, ring[i] + HDR, ring[i + 1], x);
  }

  /** The used block `i` takes in the free block behind it. */
  lemma FreeAbsorbed(end: int, ring: seq<int>, used: set<int>, frees: seq<int>, avail: int, m: seq<Byte>, i: nat, k: nat)
    requires Kept(end, ring, used, frees, avail) && |m| == end + HDR
    requires i + 1 < |ring| && ring[i] in used && k < |frees| && frees[k] == ring[i + 1]
    ensures i + 2 < |ring| && ring[i + 2] in used && 0 <= ring[i] < ring[i + 1] < ring[i + 2] <= end
    ensures Kept(end, Dropped(ring, i + 1), used, Dropped(frees, k), avail - (ring[i + 2] - ring[i + 1] - HDR))
    ensures Live(HDR, MINIALLOC, end, Dropped(ring, i + 1), used, m) == Live(HDR, MINIALLOC, end, ring, used, m)[ring[i] := m[ring[i] + HDR..ring[i + 2]]]
    ensures ring[i] in Live(HDR, MINIALLOC, end, ring, used, m)
    ensures HeapLive.Over(HDR, MINIALLOC, end, ring, used, m) && HeapLive.Over(HDR, MINIALLOC, end, Dropped(ring, i + 1), used, m)
  {
    hide FreeSum, Live, Tiled, Distinct, NoTwoFree, Dropped, NextOf;
    assert ring[i + 1] in frees;
    NotTailer(end, ring, used, i + 1);
    IndexIs(HDR, MINIALLOC, end, ring, i);
    IndexIs(HDR, MINIALLOC, end, ring, i + 1);
    Bounds(HDR, MINIALLOC, end, ring, ring[i]);
    Bounds(HDR, MINIALLOC, end, ring, ring[i + 1]);
    BooksMerge(end, ring, used, frees, avail, i + 1, k);
    LiveDropped(HDR, MINIALLOC, end, ring, used, m, i + 1);
    ApartMerged(ring, used, i + 1);
    NextUsed(ring, used, i + 1);
  }

  lemma NotTailer(end: int, ring: seq<int>, used: set<int>, i: nat)
    requires Tiled(HDR, MINIALLOC, end, ring) && end in used && i < |ring| && ring[i] !in used
    ensures i + 1 < |ring|
  {
  }

  // ---- freeing --------------------------------------------------------------------------------

  /** The used block `i` becomes free; the block before it, if any, is used. */
  lemma Unmarked(end: int, ring: seq<int>, used: set<int>, frees: seq<int>, avail: int, m: seq<Byte>, i: nat)
    requires Kept(end, ring, used, frees, avail) && |m| == end + HDR && i + 1 < |ring| && ring[i] in used
    ensures Books(end, ring, used - {ring[i]}, [ring[i]] + frees, avail + (ring[i + 1] - ring[i] - HDR))
    ensures Live(HDR, MINIALLOC, end, ring, used - {ring[i]}, m) == Live(HDR, MINIALLOC, end, ring, used, m) - {ring[i]}
    ensures i == 0 || ring[i - 1] in used ==> NearlyApart(ring, used - {ring[i]}, i)
  {
    hide FreeSum, Live, Tiled;
    BooksUnmark(end, ring, used, frees, avail, i);
    LiveUnmark(HDR, MINIALLOC, end, ring, used, m, ring[i]);
    TiledDistinct(HDR, MINIALLOC, end, ring);
    ApartUnmarked(ring, used, i);
  }

  /** A block that has just become free is merged into the free block before it. */
  lemma LeftMerged(end: int, ring: seq<int>, used: set<int>, frees: seq<int>, avail: int, m: seq<Byte>, i: nat)
    requires Kept(end, ring, used, frees, avail) && |m| == end + HDR && 0 < i < |ring| - 1
    requires ring[i] in used && ring[i - 1] !in used
    ensures Books(end, Dropped(ring, i), used - {ring[i]}, frees, avail + (ring[i + 1] - ring[i] - HDR) + HDR)
    ensures Live(HDR, MINIALLOC, end, Dropped(ring, i), used - {ring[i]}, m) == Live(HDR, MINIALLOC, end, ring, used, m) - {ring[i]}
    ensures NearlyApart(Dropped(ring, i), used - {ring[i]}, i - 1)
  {
    hide FreeSum, Live, Tiled, NoTwoFree, NearlyApart, Distinct;
    var h, u := ring[i], used - {ring[i]};
    Unmarked(end, ring, used, frees, avail, m, i);
    assert Dropped([h] + frees, 0) == frees;
    BooksMerge(end, ring, u, [h] + frees, avail + (ring[i + 1] - ring[i] - HDR), i, 0);
    LiveDropped(HDR, MINIALLOC, end, ring, u, m, i);
    TiledDistinct(HDR, MINIALLOC, end, ring);
    ApartLeft(ring, used, i);
  }

  /** A free block takes in the free block behind it. */
  lemma RightMerged(end: int, ring: seq<int>, used: set<int>, frees: seq<int>, avail: int, m: seq<Byte>, i: nat, k: nat)
    requires Books(end, ring, used, frees, avail) && NearlyApart(ring, used, i) && |m| == end + HDR
    requires i + 1 < |ring| && ring[i] !in used && k < |frees| && frees[k] == ring[i + 1]
    ensures i + 2 < |ring| && Kept(end, Dropped(ring, i + 1), used, Dropped(frees, k), avail + HDR)
    ensures HeapLive.Over(HDR, MINIALLOC, end, ring, used, m) && HeapLive.Over(HDR, MINIALLOC, end, Dropped(ring, i + 1), used, m)
    ensures Live(HDR, MINIALLOC, end, Dropped(ring, i + 1), used, m) == Live(HDR, MINIALLOC, end, ring, used, m)
  {
    hide FreeSum, Live, Tiled;
    assert ring[i + 1] in frees;
    NotTailer(end, ring, used, i + 1);
    BooksMerge(end, ring, used, frees, avail, i + 1, k);
    LiveDropped(HDR, MINIALLOC, end, ring, used, m, i + 1);
    ApartRight(ring, used, i);
  }

  /** Cutting before absorbing is absorbing before cutting. */
  lemma CutOrder(ring: seq<int>, i: nat, x: int)
    requires i + 2 < |ring|
    ensures Dropped(Inserted(ring, i, x), i + 2) == Inserted(Dropped(ring, i + 1), i, x)
  {
  }

  lemma DroppedAt(ring: seq<int>, i: nat)
    requires 0 < i < |ring| - 1
    ensures var r := Dropped(ring, i); |r| == |ring| - 1 && r[i - 1] == ring[i - 1] && r[i] == ring[i + 1]
  {
  }

  lemma NextDiffers(end: int, ring: seq<int>, i: nat)
    requires Tiled(HDR, MINIALLOC, end, ring) && i + 1 < |ring|
    ensures After(ring, i) == ring[i + 1] && ring[i + 1] in ring && ring[i + 1] != ring[i]
  {
    TiledOrder(HDR, MINIALLOC, end, ring, i, i + 1);
  }

  lemma HeadNew(end: int, ring: seq<int>, used: set<int>, h: int, frees: seq<int>, avail: int)
    requires Kept(end, ring, used, [h] + frees, avail)
    ensures h !in frees
  {
    forall k | 0 <= k < |frees|
      ensures frees[k] != h
    {
      assert ([h] + frees)[0] != ([h] + frees)[k + 1];
    }
  }

  /** The end of a used block in front of a used one becomes a free block. */
  lemma BeforeUsed(end: int, ring: seq<int>, used: set<int>, frees: seq<int>, avail: int, m: seq<Byte>, m': seq<Byte>, i: nat, x: int)
    requires Kept(end, ring, used, frees, avail) && |m| == end + HDR && SameBut(HDR, m, m', x)
    requires i + 1 < |ring| && ring[i] in used && ring[i + 1] in used && x % 4 == 0
    requires ring[i] + HDR + MINIALLOC <= x && x + HDR + MINIALLOC <= ring[i + 1]
    ensures x !in ring && x !in frees && 0 <= ring[i] < x <= end && HeapLive.Over(HDR, MINIALLOC, end, ring, used, m)
    ensures Kept(end, Inserted(ring, i, x), used, [x] + frees, avail + (ring[i + 1] - x - HDR))
    ensures HeapLive.Over(HDR, MINIALLOC, end, Inserted(ring, i, x), used, m')
    ensures var l := Live(HDR, MINIALLOC, end, ring, used, m);
      && Live(HDR, MINIALLOC, end, Inserted(ring, i, x), used, m') == l[ring[i] := m[ring[i] + HDR..x]]
      && ring[i] in l && SamePrefix(l[ring[i]], m[ring[i] + HDR..x])
  {
    hide FreeSum, Live, Tiled, Inserted, NoTwoFree, SamePrefix, Distinct, SameBut;
    UsedCut(end, ring, used, frees, avail, m, m', i, x);
    ApartCut(ring, used, i, x);
    PayloadOf(HDR, MINIALLOC, end, ring, used, m, i);
    PrefixOf(m, ring[i] + HDR, ring[i + 1], x);
  }

  /** Giving back the end of the used block `i` from `x` on: the new free block takes in the block
      behind it if that is free, the `k`-th of the free list. */
  lemma EndReturned(end: int, ring: seq<int>, used: set<int>, frees: seq<int>, avail: int, m: seq<Byte>, m': seq<Byte>, i: nat, k: nat, x: int)
    requires Kept(end, ring, used, frees, avail) && |m| == end + HDR && SameBut(HDR, m, m', x)
    requires i + 1 < |ring| && ring[i] in used && x % 4 == 0
    requires ring[i] + HDR + MINIALLOC <= x && x + HDR + MINIALLOC <= ring[i + 1]
    requires ring[i + 1] !in used ==> i + 2 < |ring| && k < |frees| && frees[k] == ring[i + 1] < ring[i + 2]
    ensures x !in ring && x !in frees && 0 <= ring[i] < x <= end && HeapLive.Over(HDR, MINIALLOC, end, ring, used, m)
    ensures var next := ring[i + 1];
      var ring' := if next in used then Inserted(ring, i, x) else Inserted(Dropped(ring, i + 1), i, x);
      && Kept(end, ring', used, [x] + (if next in used then frees else Dropped(frees, k)),
              avail + (next - x - (if next in used then HDR else 0)))
      && HeapLive.Over(HDR, MINIALLOC, end, ring', used, m')
      && Live(HDR, MINIALLOC, end, ring', used, m') == Live(HDR, MINIALLOC, end, ring, used, m)[ring[i] := m[ring[i] + HDR..x]]
    ensures ring[i] in Live(HDR, MINIALLOC, end, ring, used, m) && SamePrefix(Live(HDR, MINIALLOC, end, ring, used, m)[ring[i]], m[ring[i] + HDR..x])
  {
    hide FreeSum, Live, Tiled, Inserted, Dropped, NoTwoFree, SamePrefix, Distinct, SameBut;
    FitsBetween(HDR, MINIALLOC, end, ring, i, x);
    if ring[i + 1] in used {
      BeforeUsed(end, ring, used, frees, avail, m, m', i, x);
    } else {
      BorderMoved(end, ring, used, frees, avail, m, m', i, k, x);
    }
  }

  /** An unused block behind block `h` stands in the free list. */
  lemma MergedNext(end: int, ring: seq<int>, used: set<int>, h: int, insertHeader: bool, frees: seq<int>, avail: int, i: nat)
    requires Books(end, ring, used, if insertHeader then [h] + frees else frees, avail)
    requires i + 1 < |ring| && ring[i] == h && After(ring, i) !in used
    ensures After(ring, i) == ring[i + 1] && ring[i + 1] in frees
  {
    NextDiffers(end, ring, i);
  }

  /** A block taken out of the free list is not in it any more. */
  lemma GoneFromList(end: int, ring: seq<int>, used: set<int>, frees: seq<int>, avail: int, k: nat)
    requires Books(end, ring, used, frees, avail) && k < |frees|
    ensures frees[k] !in Dropped(frees, k)
  {
    InDropped(frees, k);
  }
}
