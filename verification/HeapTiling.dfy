/** Memory blocks that tile an interval. A block is the address of its header of `hdr` bytes; it
    reaches up to the next block of the sequence. The last one is a tailer that is always used. */
module HeapTiling {
  import opened DoubleLinks

  /** The blocks start at 0, end in the tailer at `end`, lie on multiples of 4, and each but the
      tailer has room for at least `min` bytes behind its header. */
  ghost predicate Tiled(hdr: nat, min: nat, end: int, ring: seq<int>) {
    && 0 < hdr && |ring| >= 2 && ring[0] == 0 && ring[|ring| - 1] == end
    && (forall i :: 0 <= i < |ring| ==> ring[i] % 4 == 0)
    && (forall i :: 0 <= i < |ring| - 1 ==> ring[i] + hdr + min <= After(ring, i))
  }

  lemma {:induction false} TiledOrder(hdr: nat, min: nat, end: int, ring: seq<int>, i: nat, j: nat)
    requires Tiled(hdr, min, end, ring) && i < j < |ring|
    ensures ring[i] + hdr + min <= ring[j]
    decreases j
  {
    assert ring[j - 1] + hdr + min <= After(ring, j - 1);
    if i < j - 1 {
      TiledOrder(hdr, min, end, ring, i, j - 1);
    }
  }

  /** Blocks do not repeat, and lie inside the memory. */
  lemma TiledDistinct(hdr: nat, min: nat, end: int, ring: seq<int>)
    requires Tiled(hdr, min, end, ring)
    ensures Distinct(ring)
    ensures forall i :: 0 <= i < |ring| ==> 0 <= ring[i] <= end
  {
    forall i, j | 0 <= i < j < |ring|
      ensures ring[i] != ring[j]
    {
      TiledOrder(hdr, min, end, ring, i, j);
    }
    forall i | 0 <= i < |ring|
      ensures 0 <= ring[i] <= end
    {
      InRange(hdr, min, end, ring, i);
    }
  }

  lemma InRange(hdr: nat, min: nat, end: int, ring: seq<int>, i: nat)
    requires Tiled(hdr, min, end, ring) && i < |ring|
    ensures 0 <= ring[i] <= end
  {
    if i > 0 { TiledOrder(hdr, min, end, ring, 0, i); }
    if i < |ring| - 1 { TiledOrder(hdr, min, end, ring, i, |ring| - 1); }
  }

  /** A header that fits into the payload of a block, leaving room before and behind, is new, and
      no block's header comes near it. */
  lemma FitsBetween(hdr: nat, min: nat, end: int, ring: seq<int>, i: nat, x: int)
    requires Tiled(hdr, min, end, ring) && i < |ring| - 1
    requires ring[i] + hdr <= x && x + hdr <= ring[i + 1]
    ensures forall j :: 0 <= j < |ring| ==> ring[j] + hdr <= x || x + hdr <= ring[j]
    ensures x !in ring
  {
    forall j | 0 <= j < |ring|
      ensures ring[j] + hdr <= x || x + hdr <= ring[j]
    {
      if j < i { TiledOrder(hdr, min, end, ring, j, i); }
      if j > i + 1 { TiledOrder(hdr, min, end, ring, i + 1, j); }
    }
  }

  /** Cutting a block in two. */
  lemma TiledInserted(hdr: nat, min: nat, end: int, ring: seq<int>, i: nat, x: int)
    requires Tiled(hdr, min, end, ring) && i < |ring| - 1 && x % 4 == 0
    requires ring[i] + hdr + min <= x && x + hdr + min <= ring[i + 1]
    ensures Tiled(hdr, min, end, Inserted(ring, i, x))
  {
    var ys := Inserted(ring, i, x);
    forall j | 0 <= j < |ys| - 1
      ensures ys[j] + hdr + min <= After(ys, j)
    {
      if j < i { assert ring[j] + hdr + min <= After(ring, j); }
      if j > i + 1 { assert ring[j - 1] + hdr + min <= After(ring, j - 1); }
    }
  }

  /** Merging a block into the one before it. */
  lemma TiledDropped(hdr: nat, min: nat, end: int, ring: seq<int>, i: nat)
    requires Tiled(hdr, min, end, ring) && 0 < i < |ring| - 1
    ensures Tiled(hdr, min, end, Dropped(ring, i))
  {
    var ys := Dropped(ring, i);
    TiledOrder(hdr, min, end, ring, i - 1, i + 1);
    forall j | 0 <= j < |ys| - 1
      ensures ys[j] + hdr + min <= After(ys, j)
    {
      var l := if j < i then j else j + 1;
      assert ring[l] + hdr + min <= After(ring, l);
    }
  }

  // ---- byte accounts ------------------------------------------------------------------------

  /** What a block from `a` up to `b` adds to the free bytes. */
  function Cost(hdr: nat, used: set<int>, a: int, b: int): int {
    if a in used then 0 else b - a - hdr
  }

  /** The sum of the payload sizes of the unused blocks. */
  function FreeSum(hdr: nat, ring: seq<int>, used: set<int>): int {
    if |ring| < 2 then 0
    else Cost(hdr, used, ring[0], ring[1]) + FreeSum(hdr, ring[1..], used)
  }

  lemma {:induction false} SumInserted(hdr: nat, ring: seq<int>, used: set<int>, i: nat, x: int)
    requires i + 1 < |ring|
    ensures FreeSum(hdr, Inserted(ring, i, x), used) ==
      FreeSum(hdr, ring, used) - Cost(hdr, used, ring[i], ring[i + 1]) + Cost(hdr, used, ring[i], x) + Cost(hdr, used, x, ring[i + 1])
  {
    var ys := Inserted(ring, i, x);
    if i == 0 {
      assert ys[1..] == [x] + ring[1..];
      assert ys[1..][1..] == ring[1..];
    } else {
      assert ys[1..] == Inserted(ring[1..], i - 1, x);
      SumInserted(hdr, ring[1..], used, i - 1, x);
    }
  }

  lemma SumDropped(hdr: nat, ring: seq<int>, used: set<int>, i: nat)
    requires 0 < i < |ring| - 1
    ensures FreeSum(hdr, Dropped(ring, i), used) ==
      FreeSum(hdr, ring, used) - Cost(hdr, used, ring[i - 1], ring[i]) - Cost(hdr, used, ring[i], ring[i + 1])
        + Cost(hdr, used, ring[i - 1], ring[i + 1])
  {
    var ys := Dropped(ring, i);
    assert Inserted(ys, i - 1, ring[i]) == ring;
    SumInserted(hdr, ys, used, i - 1, ring[i]);
  }

  /** Only the flags of the blocks matter, and the tailer's does not. */
  lemma {:induction false} SumSame(hdr: nat, ring: seq<int>, used: set<int>, used': set<int>)
    requires forall j :: 0 <= j < |ring| - 1 ==> (ring[j] in used <==> ring[j] in used')
    ensures FreeSum(hdr, ring, used) == FreeSum(hdr, ring, used')
  {
    if |ring| >= 2 {
      SumSame(hdr, ring[1..], used, used');
    }
  }

  /** Marking block `i` used takes its payload from the sum. */
  lemma {:induction false} SumMarked(hdr: nat, ring: seq<int>, used: set<int>, i: nat)
    requires i + 1 < |ring| && Distinct(ring) && ring[i] !in used
    ensures FreeSum(hdr, ring, used + {ring[i]}) == FreeSum(hdr, ring, used) - (ring[i + 1] - ring[i] - hdr)
  {
    if i == 0 {
      SumSame(hdr, ring[1..], used, used + {ring[0]});
    } else {
      SumMarked(hdr, ring[1..], used, i - 1);
    }
  }

  // ---- free neighbours ----------------------------------------------------------------------

  /** No two neighbours are both unused. */
  ghost predicate NoTwoFree(ring: seq<int>, used: set<int>) {
    forall i :: 0 <= i < |ring| - 1 ==> ring[i] in used || After(ring, i) in used
  }

  /** Taking a free block and cutting off its end leaves no two free neighbours. */
  lemma ApartTaken(ring: seq<int>, used: set<int>, i: nat, x: int)
    requires NoTwoFree(ring, used) && i + 1 < |ring| && ring[i] !in used
    ensures NoTwoFree(Inserted(ring, i, x), used + {ring[i]})
  {
    var ys := Inserted(ring, i, x);
    forall j | 0 <= j < |ys| - 1
      ensures ys[j] in used + {ring[i]} || After(ys, j) in used + {ring[i]}
    {
      if j > i { assert ring[j - 1] in used || After(ring, j - 1) in used; }
    }
  }

  lemma ApartCut(ring: seq<int>, used: set<int>, i: nat, x: int)
    requires NoTwoFree(ring, used) && i + 1 < |ring| && ring[i] in used && ring[i + 1] in used
    ensures NoTwoFree(Inserted(ring, i, x), used)
  {
    var ys := Inserted(ring, i, x);
    forall j | 0 <= j < |ys| - 1
      ensures ys[j] in used || After(ys, j) in used
    {
      if j < i { assert ring[j] in used || After(ring, j) in used; }
      if j > i + 1 { assert ring[j - 1] in used || After(ring, j - 1) in used; }
    }
  }

  lemma ApartMerged(ring: seq<int>, used: set<int>, i: nat)
    requires NoTwoFree(ring, used) && 0 < i < |ring| - 1 && ring[i - 1] in used
    ensures NoTwoFree(Dropped(ring, i), used)
  {
    var ys := Dropped(ring, i);
    forall j | 0 <= j < |ys| - 1
      ensures ys[j] in used || After(ys, j) in used
    {
      if j < i { assert ring[j] in used || After(ring, j) in used; }
      if j >= i { assert ring[j + 1] in used || After(ring, j + 1) in used; }
    }
  }

  /** No two neighbours are free, except perhaps block `i` and the one behind it. */
  ghost predicate NearlyApart(ring: seq<int>, used: set<int>, i: nat) {
    forall j :: 0 <= j < |ring| - 1 && j != i ==> ring[j] in used || After(ring, j) in used
  }

  lemma ApartUnmarked(ring: seq<int>, used: set<int>, i: nat)
    requires NoTwoFree(ring, used) && Distinct(ring) && i + 1 < |ring|
    ensures i == 0 || ring[i - 1] in used ==> NearlyApart(ring, used - {ring[i]}, i)
  {
    forall j | 0 <= j < |ring| - 1 && j != i && (i == 0 || ring[i - 1] in used)
      ensures ring[j] in used - {ring[i]} || After(ring, j) in used - {ring[i]}
    {
      assert ring[j] in used || After(ring, j) in used;
    }
  }

  lemma ApartLeft(ring: seq<int>, used: set<int>, i: nat)
    requires NoTwoFree(ring, used) && Distinct(ring) && 0 < i < |ring| - 1 && ring[i] in used && ring[i - 1] !in used
    ensures NearlyApart(Dropped(ring, i), used - {ring[i]}, i - 1)
  {
    var ys, u := Dropped(ring, i), used - {ring[i]};
    forall j | 0 <= j < |ys| - 1 && j != i - 1
      ensures ys[j] in u || After(ys, j) in u
    {
      if j < i { assert ring[j] in used || After(ring, j) in used; }
      if j >= i { assert ring[j + 1] in used || After(ring, j + 1) in used; }
    }
  }

  lemma ApartRight(ring: seq<int>, used: set<int>, i: nat)
    requires NearlyApart(ring, used, i) && i + 2 < |ring| && ring[i + 1] !in used
    ensures NoTwoFree(Dropped(ring, i + 1), used)
  {
    var ys := Dropped(ring, i + 1);
    forall j | 0 <= j < |ys| - 1
      ensures ys[j] in used || After(ys, j) in used
    {
      if j < i { assert ring[j] in used || After(ring, j) in used; }
      if j >= i { assert ring[j + 1] in used || After(ring, j + 1) in used; }
    }
  }

  lemma NearlyDone(ring: seq<int>, used: set<int>, i: nat)
    requires NearlyApart(ring, used, i) && i + 1 < |ring| && ring[i + 1] in used
    ensures NoTwoFree(ring, used)
  {
  }

  lemma NextUsed(ring: seq<int>, used: set<int>, i: nat)
    requires NoTwoFree(ring, used) && i + 1 < |ring| && ring[i] !in used
    ensures ring[i + 1] in used
  {
    assert ring[i] in used || After(ring, i) in used;
  }

  /** No two neighbours are free, except perhaps block `i` and either of its neighbours. */
  ghost predicate ApartAround(ring: seq<int>, used: set<int>, i: nat) {
    forall j :: 0 <= j < |ring| - 1 && j != i && j + 1 != i ==> ring[j] in used || After(ring, j) in used
  }

  lemma AroundFreed(ring: seq<int>, used: set<int>, i: nat)
    requires NoTwoFree(ring, used) && Distinct(ring) && i + 1 < |ring|
    ensures ApartAround(ring, used - {ring[i]}, i)
  {
    forall j | 0 <= j < |ring| - 1 && j != i && j + 1 != i
      ensures ring[j] in used - {ring[i]} || After(ring, j) in used - {ring[i]}
    {
      assert ring[j] in used || After(ring, j) in used;
    }
  }

  lemma AroundCut(ring: seq<int>, used: set<int>, i: nat, x: int)
    requires NoTwoFree(ring, used) && i + 1 < |ring|
    ensures ApartAround(Inserted(ring, i, x), used, i + 1)
  {
    var ys := Inserted(ring, i, x);
    forall j | 0 <= j < |ys| - 1 && j != i + 1 && j != i
      ensures ys[j] in used || After(ys, j) in used
    {
      var l := if j < i then j else j - 1;
      assert ring[l] in used || After(ring, l) in used;
    }
  }

  /** After block `i` has taken in the free block behind it, only its left neighbour is left to
      look at. */
  lemma AroundForward(ring: seq<int>, used: set<int>, i: nat)
    requires ApartAround(ring, used, i) && i + 2 < |ring| && ring[i + 1] !in used
    ensures i > 0 ==> NearlyApart(Dropped(ring, i + 1), used, i - 1)
    ensures i == 0 ==> NoTwoFree(Dropped(ring, i + 1), used)
  {
    var ys := Dropped(ring, i + 1);
    forall j | 0 <= j < |ys| - 1 && j != i - 1
      ensures ys[j] in used || After(ys, j) in used
    {
      var l := if j < i then j else j + 1;
      assert ring[l] in used || After(ring, l) in used;
    }
  }

  lemma AroundStill(ring: seq<int>, used: set<int>, i: nat)
    requires ApartAround(ring, used, i) && i + 1 < |ring| && ring[i + 1] in used
    ensures i > 0 ==> NearlyApart(ring, used, i - 1)
    ensures i == 0 ==> NoTwoFree(ring, used)
  {
  }

  lemma NearlyLeft(ring: seq<int>, used: set<int>, i: nat)
    requires NearlyApart(ring, used, i) && i < |ring| && ring[i] in used
    ensures NoTwoFree(ring, used)
  {
  }
}
