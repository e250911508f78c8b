/** The small memory management algorithm: a heap of blocks in address order, each with a header
    that links it to its neighbours, searched first fit from a hint at the lowest free block.
    Addresses are offsets from the start of the heap. */
module SmallMem {
  import opened Arithmetic
  import opened Bytes
  import opened DoubleLinks
  import opened HeapTiling
  import opened HeapLive

  const HDR: nat := 12
  const MIN_SIZE: nat := 12

  /** The null pointer; no payload starts at the heap's own start. */
  const NULL: int := 0

  // ---- the list of blocks -----------------------------------------------------------------------

  /** The `i`-th block is linked to its neighbours; the first block is its own predecessor and the
      last its own successor. What the last block has for a predecessor is not kept up. */
  ghost predicate ChainedAt(next: map<int, int>, prev: map<int, int>, ring: seq<int>, i: nat)
    requires i < |ring|
  {
    && ring[i] in next && ring[i] in prev
    && next[ring[i]] == (if i + 1 < |ring| then ring[i + 1] else ring[i])
    && (i + 1 < |ring| ==> prev[ring[i]] == if i > 0 then ring[i - 1] else ring[i])
  }

  ghost predicate Chained(next: map<int, int>, prev: map<int, int>, ring: seq<int>) {
    Distinct(ring) && forall i :: 0 <= i < |ring| ==> ChainedAt(next, prev, ring, i)
  }

  lemma ChainOf(next: map<int, int>, prev: map<int, int>, ring: seq<int>, i: nat)
    requires Chained(next, prev, ring) && i + 1 < |ring|
    ensures ring[i] in next && ring[i] in prev && next[ring[i]] == ring[i + 1]
    ensures prev[ring[i]] == if i > 0 then ring[i - 1] else ring[i]
    ensures ring[i + 1] in next && ring[i + 1] in prev && ring[i] != ring[i + 1]
    ensures i > 0 ==> ring[i - 1] != ring[i]
  {
    assert ChainedAt(next, prev, ring, i) && ChainedAt(next, prev, ring, i + 1);
  }

  /** Links a new block `x` in behind block `i`. The last block's predecessor is not set. */
  lemma ChainInserted(next: map<int, int>, prev: map<int, int>, ring: seq<int>, i: nat, x: int)
    requires Chained(next, prev, ring) && i + 1 < |ring| && x !in ring
    ensures var n := ring[i + 1];
      var prev1 := prev[x := ring[i]];
      Chained(next[x := n][ring[i] := x], if i + 2 < |ring| then prev1[n := x] else prev1, Inserted(ring, i, x))
  {
    var n, ys := ring[i + 1], Inserted(ring, i, x);
    var next', prev1 := next[x := n][ring[i] := x], prev[x := ring[i]];
    var prev' := if i + 2 < |ring| then prev1[n := x] else prev1;
    forall j | 0 <= j < |ys|
      ensures ChainedAt(next', prev', ys, j)
    {
      ChainInsertedAt(next, prev, ring, i, x, j);
    }
  }

  lemma ChainInsertedAt(next: map<int, int>, prev: map<int, int>, ring: seq<int>, i: nat, x: int, j: nat)
    requires Chained(next, prev, ring) && i + 1 < |ring| && x !in ring && j <= |ring|
    ensures var n := ring[i + 1];
      var prev1 := prev[x := ring[i]];
      ChainedAt(next[x := n][ring[i] := x], if i + 2 < |ring| then prev1[n := x] else prev1, Inserted(ring, i, x), j)
  {
    assert ChainedAt(next, prev, ring, if j <= i then j else if j == i + 1 then i else j - 1);
  }

  /** Merges block `i + 1` into block `i`. */
  lemma ChainDropped(next: map<int, int>, prev: map<int, int>, ring: seq<int>, i: nat)
    requires Chained(next, prev, ring) && i + 2 < |ring|
    ensures Chained(next[ring[i] := ring[i + 2]], prev[ring[i + 2] := ring[i]], Dropped(ring, i + 1))
  {
    var ys := Dropped(ring, i + 1);
    var next', prev' := next[ring[i] := ring[i + 2]], prev[ring[i + 2] := ring[i]];
    forall j | 0 <= j < |ys|
      ensures ChainedAt(next', prev', ys, j)
    {
      ChainDroppedAt(next, prev, ring, i, j);
    }
  }

  lemma ChainDroppedAt(next: map<int, int>, prev: map<int, int>, ring: seq<int>, i: nat, j: nat)
    requires Chained(next, prev, ring) && i + 2 < |ring| && j < |ring| - 1
    ensures ChainedAt(next[ring[i] := ring[i + 2]], prev[ring[i + 2] := ring[i]], Dropped(ring, i + 1), j)
  {
    assert ChainedAt(next, prev, ring, if j <= i then j else j + 1);
  }

  lemma ChainSurvives(next: map<int, int>, prev: map<int, int>, ring: seq<int>, x: int)
    requires Chained(next, prev, ring) && forall y :: y in ring ==> y + HDR <= x || x + HDR <= y
    ensures Chained(Surviving(next, HDR, x), Surviving(prev, HDR, x), ring)
  {
    forall i | 0 <= i < |ring|
      ensures ChainedAt(Surviving(next, HDR, x), Surviving(prev, HDR, x), ring, i)
    {
      assert ChainedAt(next, prev, ring, i) && ring[i] in ring;
    }
  }

  // ---- the account of used memory ---------------------------------------------------------------

  /** The blocks tile the heap, and `usedMem` is what their used ones take, headers included. A used
      block may be shorter than MIN_SIZE, since rt_realloc shrinks to any size. */
  ghost predicate Tally(end: int, ring: seq<int>, used: set<int>, usedMem: int) {
    && Tiled(HDR, 0, end, ring)
    && end in used && (forall x :: x in used ==> x in ring)
    && usedMem == end - FreeSum(0, ring, used)
  }

  /** The bytes that the used blocks but the last take, headers included. */
  function UsedSum(ring: seq<int>, used: set<int>): int {
    if |ring| < 2 then 0
    else (if ring[0] in used then ring[1] - ring[0] else 0) + UsedSum(ring[1..], used)
  }

  lemma {:induction false} UsedAndFree(ring: seq<int>, used: set<int>)
    requires |ring| > 0
    ensures UsedSum(ring, used) + FreeSum(0, ring, used) == ring[|ring| - 1] - ring[0]
  {
    if |ring| >= 2 {
      UsedAndFree(ring[1..], used);
    }
  }

  /** `used_mem` is the total extent of the used blocks. */
  lemma TallyIsUsed(end: int, ring: seq<int>, used: set<int>, usedMem: int)
    requires Tally(end, ring, used, usedMem)
    ensures usedMem == UsedSum(ring, used)
  {
    UsedAndFree(ring, used);
  }

  lemma TallyMark(end: int, ring: seq<int>, used: set<int>, usedMem: int, i: nat)
    requires Tally(end, ring, used, usedMem) && i + 1 < |ring| && ring[i] !in used
    ensures Tally(end, ring, used + {ring[i]}, usedMem + (ring[i + 1] - ring[i]))
  {
    hide Tiled, FreeSum;
    TiledDistinct(HDR, 0, end, ring);
    SumMarked(0, ring, used, i);
  }

  lemma TallyUnmark(end: int, ring: seq<int>, used: set<int>, usedMem: int, i: nat)
    requires Tally(end, ring, used, usedMem) && i + 1 < |ring| && ring[i] in used
    ensures Tally(end, ring, used - {ring[i]}, usedMem - (ring[i + 1] - ring[i]))
  {
    hide FreeSum;
    TiledDistinct(HDR, 0, end, ring);
    SumMarked(0, ring, used - {ring[i]}, i);
    assert used - {ring[i]} + {ring[i]} == used;
  }

  /** The end of a block, from `x` on, becomes a free block. */
  lemma TallySplit(end: int, ring: seq<int>, used: set<int>, usedMem: int, i: nat, x: int)
    requires Tally(end, ring, used, usedMem) && i + 1 < |ring| && x % 4 == 0
    requires ring[i] + HDR <= x && x + HDR <= ring[i + 1]
    ensures x !in ring && 0 <= ring[i] < x < end
    ensures Tally(end, Inserted(ring, i, x), used, if ring[i] in used then usedMem - (ring[i + 1] - x) else usedMem)
  {
    hide Tiled, FreeSum, Inserted;
    FitsBetween(HDR, 0, end, ring, i, x);
    TiledInserted(HDR, 0, end, ring, i, x);
    TiledDistinct(HDR, 0, end, ring);
    InInserted(ring, i, x);
    SumInserted(0, ring, used, i, x);
  }

  /** A free block is merged into the free block before it. */
  lemma TallyMerge(end: int, ring: seq<int>, used: set<int>, usedMem: int, i: nat)
    requires Tally(end, ring, used, usedMem) && 0 < i < |ring| - 1 && ring[i] !in used && ring[i - 1] !in used
    ensures Tally(end, Dropped(ring, i), used, usedMem)
  {
    hide Tiled, FreeSum, Dropped;
    TiledDropped(HDR, 0, end, ring, i);
    InDropped(ring, i);
    SumDropped(0, ring, used, i);
  }

  // ---- the effect on the live memory ------------------------------------------------------------

  /** A free block is cut at `x` and its front given out. */
  lemma FrontTaken(end: int, ring: seq<int>, used: set<int>, usedMem: int, m: seq<Byte>, m': seq<Byte>, i: nat, x: int)
    requires Tally(end, ring, used, usedMem) && NoTwoFree(ring, used) && |m| == end + HDR && SameBut(HDR, m, m', x)
    requires i + 1 < |ring| && ring[i] !in used && x % 4 == 0 && ring[i] + HDR <= x && x + HDR <= ring[i + 1]
    ensures x !in ring && 0 <= ring[i] < x < end && ring[i] !in Live(HDR, 0, end, ring, used, m)
    ensures var ring', used' := Inserted(ring, i, x), used + {ring[i]};
      && Tally(end, ring', used', usedMem + (x - ring[i])) && NoTwoFree(ring', used') && HeapLive.Over(HDR, 0, end, ring', used', m')
      && Live(HDR, 0, end, ring', used', m') == Live(HDR, 0, end, ring, used, m)[ring[i] := m'[ring[i] + HDR..x]]
  {
    hide Tiled, FreeSum, Live, Inserted, NoTwoFree, Distinct;
    var r := Inserted(ring, i, x);
    TallySplit(end, ring, used, usedMem, i, x);
    FrontAt(ring, i, x);
    TallyMark(end, r, used, usedMem, i);
    IndexIs(HDR, 0, end, ring, i);
    IndexIs(HDR, 0, end, r, i);
    LiveWritten(HDR, 0, end, ring, used, m, m', i);
    LiveInserted(HDR, 0, end, ring, used, m', i, x);
    LiveMark(HDR, 0, end, r, used, m', ring[i]);
    ApartTaken(ring, used, i, x);
  }

  lemma KeptMembers(ring: seq<int>, i: nat, x: int)
    requires i < |ring|
    ensures forall y :: y in Inserted(ring, i, x) <==> y in ring || y == x
  {
    InInserted(ring, i, x);
    assert Inserted(ring, i, x)[i + 1] == x;
  }

  lemma ApartMarked(ring: seq<int>, used: set<int>, h: int)
    requires NoTwoFree(ring, used)
    ensures NoTwoFree(ring, used + {h})
  {
    forall i | 0 <= i < |ring| - 1
      ensures ring[i] in used + {h} || After(ring, i) in used + {h}
    {
      assert ring[i] in used || After(ring, i) in used;
    }
  }

  lemma InsertedBehind(ring: seq<int>, i: nat, x: int)
    requires i + 1 < |ring|
    ensures var r := Inserted(ring, i, x);
      |r| == |ring| + 1 && r[i] == ring[i] && r[i + 1] == x && r[i + 2] == ring[i + 1]
  {
  }

  lemma FirstTally(end: int, m: seq<Byte>)
    requires end % 4 == 0 && end >= HDR && |m| == end + HDR
    ensures Tally(end, [0, end], {end}, 0) && HeapLive.Over(HDR, 0, end, [0, end], {end}, m)
    ensures Live(HDR, 0, end, [0, end], {end}, m) == map[]
  {
    assert [0, end][1..] == [end];
    assert Tiled(HDR, 0, end, [0, end]);
    assert FreeSum(0, [0, end], {end}) == end;
  }

  lemma FrontAt(ring: seq<int>, i: nat, x: int)
    requires i < |ring|
    ensures var r := Inserted(ring, i, x); |r| == |ring| + 1 && r[i] == ring[i] && r[i + 1] == x
  {
  }

  /** The end of a used block, from `x` on, becomes a free block that may have free neighbours. */
  lemma EndCut(end: int, ring: seq<int>, used: set<int>, usedMem: int, m: seq<Byte>, m': seq<Byte>, i: nat, x: int)
    requires Tally(end, ring, used, usedMem) && NoTwoFree(ring, used) && |m| == end + HDR && SameBut(HDR, m, m', x)
    requires i + 1 < |ring| && ring[i] in used && x % 4 == 0 && ring[i] + HDR <= x && x + HDR <= ring[i + 1]
    ensures x !in ring && x !in used && 0 <= ring[i] < x < end
    ensures ring[i] in Live(HDR, 0, end, ring, used, m)
    ensures m[ring[i] + HDR..x] <= Live(HDR, 0, end, ring, used, m)[ring[i]]
    ensures var ring' := Inserted(ring, i, x);
      && Tally(end, ring', used, usedMem - (ring[i + 1] - x)) && ApartAround(ring', used, i + 1)
      && HeapLive.Over(HDR, 0, end, ring', used, m')
      && Live(HDR, 0, end, ring', used, m') == Live(HDR, 0, end, ring, used, m)[ring[i] := m[ring[i] + HDR..x]]
  {
    hide Tiled, FreeSum, Live, Inserted, NoTwoFree, Distinct;
    TallySplit(end, ring, used, usedMem, i, x);
    LiveWritten(HDR, 0, end, ring, used, m, m', i);
    LiveInserted(HDR, 0, end, ring, used, m', i, x);
    assert m'[ring[i] + HDR..x] == m[ring[i] + HDR..x];
    PayloadOf(HDR, 0, end, ring, used, m, i);
    assert m[ring[i] + HDR..x] == m[ring[i] + HDR..ring[i + 1]][..x - ring[i] - HDR];
    AroundCut(ring, used, i, x);
  }

  /** Merging two free neighbours touches nobody's bytes. */
  lemma FreeMerged(end: int, ring: seq<int>, used: set<int>, usedMem: int, m: seq<Byte>, i: nat)
    requires Tally(end, ring, used, usedMem) && |m| == end + HDR && i + 1 < |ring| && ring[i] !in used && ring[i + 1] !in used
    ensures i + 2 < |ring| && Tally(end, Dropped(ring, i + 1), used, usedMem)
    ensures HeapLive.Over(HDR, 0, end, ring, used, m) && HeapLive.Over(HDR, 0, end, Dropped(ring, i + 1), used, m)
    ensures Live(HDR, 0, end, Dropped(ring, i + 1), used, m) == Live(HDR, 0, end, ring, used, m)
  {
    NotLast(end, ring, used, usedMem, i + 1);
    hide Tiled, FreeSum, Live, Dropped;
    TallyMerge(end, ring, used, usedMem, i + 1);
    LiveDropped(HDR, 0, end, ring, used, m, i + 1);
  }

  /** The blocks left when block `i` is merged into the one before it. */
  lemma MembersDropped(end: int, ring: seq<int>, used: set<int>, usedMem: int, i: nat)
    requires Tally(end, ring, used, usedMem) && 0 < i < |ring|
    ensures var r := Dropped(ring, i);
      && (forall y :: y in r ==> y in ring && y != ring[i]) && (forall y :: y in ring && y != ring[i] ==> y in r)
      && |r| == |ring| - 1 && r[i - 1] == ring[i - 1] && r[i - 1] in r && r[i - 1] < ring[i]
      && (i > 1 ==> r[i - 2] == ring[i - 2])
  {
    TiledDistinct(HDR, 0, end, ring);
    InDropped(ring, i);
    TiledOrder(HDR, 0, end, ring, i - 1, i);
  }

  lemma LastUsed(end: int, ring: seq<int>, used: set<int>, usedMem: int)
    requires Tally(end, ring, used, usedMem)
    ensures end in used
  {
  }

  lemma NotLast(end: int, ring: seq<int>, used: set<int>, usedMem: int, i: nat)
    requires Tally(end, ring, used, usedMem) && i < |ring| && ring[i] !in used
    ensures i + 1 < |ring|
  {
  }

  /** Nothing lies between a block and the one behind it. */
  lemma NoneBetween(end: int, ring: seq<int>, i: nat, y: int)
    requires Tiled(HDR, 0, end, ring) && i + 1 < |ring| && y in ring
    ensures ring[i] < ring[i + 1] && (y <= ring[i] || ring[i + 1] <= y)
  {
    hide Tiled;
    var j :| 0 <= j < |ring| && ring[j] == y;
    TiledOrder(HDR, 0, end, ring, i, i + 1);
    if j < i { TiledOrder(HDR, 0, end, ring, j, i); }
    if j > i + 1 { TiledOrder(HDR, 0, end, ring, i + 1, j); }
  }

  lemma AlignedAbove(n: nat, size: nat)
    requires (size + HDR) % 4 == 0
    ensures size % 4 == 0 && (AlignUp(n) > size <==> n > size)
  {
  }

  lemma RoundedAligned(n: nat)
    ensures Rounded(MIN_SIZE, AlignUp(n)) == Rounded(MIN_SIZE, n)
  {
  }

  lemma RoundedFits(n: nat, y: int, next: int, size: nat)
    requires y % 4 == 0 && next % 4 == 0 && size % 4 == 0 && 0 <= y <= next
    ensures y < size - Rounded(MIN_SIZE, n) <==> y + Max(n, MIN_SIZE) + 4 <= size
    ensures next - (y + HDR) >= Rounded(MIN_SIZE, n) <==> next - y - HDR >= Max(n, MIN_SIZE)
  {
    var a, b := size - y, next - y - HDR;
    assert a % 4 == 0 && b % 4 == 0;
    if b >= 0 { RoundedLeast(MIN_SIZE, n, b); }
    if a >= 4 {
      assert (a - 4) % 4 == 0;
      RoundedLeast(MIN_SIZE, n, a - 4);
    }
  }

  class Heap {
    const size: nat
    const mem: array<Byte>
    var next: map<int, int>
    var prev: map<int, int>
    var used: set<int>
    var lfree: int
    var usedMem: int
    var maxMem: int
    ghost var ring: seq<int>

    /** rt_system_heap_init, for a memory whose ends are aligned: one free block, and the last
        block. */
    constructor (mem: array<Byte>)
      requires mem.Length % 4 == 0 && mem.Length >= 2 * HDR + MIN_SIZE
      ensures Valid() && Lowest() && Owned() == map[] && this.mem == mem && size == mem.Length - 2 * HDR
      ensures ring == [0, size + HDR] && used == {size + HDR} && lfree == 0
    {
      var sz := mem.Length - 2 * HDR;
      size, this.mem := sz, mem;
      next := map[0 := sz + HDR, sz + HDR := sz + HDR];
      prev := map[0 := 0, sz + HDR := sz + HDR];
      used := {sz + HDR};
      lfree, usedMem, maxMem := 0, 0, 0;
      ring := [0, sz + HDR];
      new;
      FirstTally(sz + HDR, mem[..size + 2 * HDR]);
    }

    /** The blocks tile the heap. */
    ghost predicate Whole()
      reads this, mem
    {
      size + 2 * HDR <= mem.Length && HeapLive.Over(HDR, 0, size + HDR, ring, used, mem[..size + 2 * HDR])
    }

    /** The hint is a block, and that is free or the last one. */
    ghost predicate HintOk()
      reads this
    {
      lfree in ring && (lfree !in used || lfree == size + HDR)
    }

    ghost predicate Valid()
      reads this, mem
    {
      && size >= MIN_SIZE
      && Whole() && Chained(next, prev, ring) && HintOk()
      && Tally(size + HDR, ring, used, usedMem) && NoTwoFree(ring, used)
      && usedMem <= maxMem
    }

    /** What the users of the heap own: the bytes of every block in use but the last. */
    ghost function Owned(): map<int, seq<Byte>>
      requires Whole()
      reads this, mem
    {
      Live(HDR, 0, size + HDR, ring, used, mem[..size + 2 * HDR])
    }

    /** No free block lies below the hint. */
    ghost predicate Lowest()
      reads this
    {
      forall x :: x in ring && x !in used ==> lfree <= x
    }

    // ---- merging ------------------------------------------------------------------------------

    /** Block `h`, the `i`-th, is free and may have free neighbours. */
    ghost predicate Holed(h: int, i: nat)
      reads this, mem
    {
      && size >= MIN_SIZE
      && Whole() && Chained(next, prev, ring) && HintOk()
      && Tally(size + HDR, ring, used, usedMem)
      && i + 1 < |ring| && ring[i] == h && h !in used && ApartAround(ring, used, i)
      && usedMem <= maxMem
    }

    /** plug_holes: merges the free block `h` with its free neighbours, and moves the hint off a
        block that disappears. */
    method PlugHoles(h: int, ghost i: nat)
      requires Holed(h, i)
      modifies this`next, this`prev, this`ring, this`lfree
      ensures Valid() && Owned() == old(Owned())
      ensures old(Lowest()) ==> Lowest()
      ensures forall y :: y in ring ==> y in old(ring)
      ensures i > 0 && old(ring)[i - 1] in used ==>
        h in ring && lfree == if old(lfree) == old(ring)[i + 1] && old(ring)[i + 1] !in used then h else old(lfree)
    {
      PlugForward(h, i);
      PlugBackward(h, i);
    }

    /** The forward half: the block behind `h` is not free any more. */
    method PlugForward(h: int, ghost i: nat)
      requires Holed(h, i)
      modifies this`next, this`prev, this`ring, this`lfree
      ensures HoledLeft(h, i) && Owned() == old(Owned()) && (old(Lowest()) ==> Lowest())
      ensures forall y :: y in ring ==> y in old(ring)
      ensures i > 0 ==> ring[i - 1] == old(ring)[i - 1]
      ensures lfree == if old(lfree) == old(ring)[i + 1] && old(ring)[i + 1] !in used then h else old(lfree)
    {
      hide Tiled, FreeSum, Live, Dropped, NoTwoFree, NearlyApart, ApartAround, Chained, Tally, HeapLive.Over;
      ChainOf(next, prev, ring, i);
      LastUsed(size + HDR, ring, used, usedMem);
      var n := next[h];
      if h != n && n !in used && n != size + HDR {
        FreeMerged(size + HDR, ring, used, usedMem, mem[..size + 2 * HDR], i);
        AroundForward(ring, used, i);
        ChainOf(next, prev, ring, i + 1);
        ChainDropped(next, prev, ring, i);
        MembersDropped(size + HDR, ring, used, usedMem, i + 1);
        if lfree == n {
          lfree := h;
        }
        next := next[h := next[n]];
        prev := prev[next[h] := h];
        ring := Dropped(ring, i + 1);
      } else {
        AroundStill(ring, used, i);
      }
    }

    /** The block behind block `h` is used. */
    ghost predicate HoledLeft(h: int, i: nat)
      reads this, mem
    {
      && size >= MIN_SIZE
      && Whole() && Chained(next, prev, ring) && HintOk()
      && Tally(size + HDR, ring, used, usedMem)
      && i + 1 < |ring| && ring[i] == h && h !in used
      && (if i == 0 then NoTwoFree(ring, used) else NearlyApart(ring, used, i - 1))
      && usedMem <= maxMem
    }

    /** The backward half. */
    method PlugBackward(h: int, ghost i: nat)
      requires HoledLeft(h, i)
      modifies this`next, this`prev, this`ring, this`lfree
      ensures Valid() && Owned() == old(Owned()) && (old(Lowest()) ==> Lowest())
      ensures forall y :: y in ring ==> y in old(ring)
      ensures i > 0 && old(ring)[i - 1] in used ==> ring == old(ring) && lfree == old(lfree)
    {
      hide Tiled, FreeSum, Live, Dropped, NoTwoFree, NearlyApart, Chained, Tally, HeapLive.Over;
      ChainOf(next, prev, ring, i);
      var p := prev[h];
      if p != h && p !in used {
        FreeMerged(size + HDR, ring, used, usedMem, mem[..size + 2 * HDR], i - 1);
        ApartRight(ring, used, i - 1);
        ChainOf(next, prev, ring, i - 1);
        ChainDropped(next, prev, ring, i - 1);
        MembersDropped(size + HDR, ring, used, usedMem, i);
        if lfree == h {
          lfree := p;
        }
        next := next[p := next[h]];
        prev := prev[next[p] := p];
        ring := Dropped(ring, i);
      } else if i > 0 {
        NearlyLeft(ring, used, i - 1);
      }
    }

    // ---- allocating ---------------------------------------------------------------------------

    /** Block `y` is free, has room for `sz` bytes and lies low enough for the search loop, whose
        bound leaves out a block at the very end that would just fit. */
    ghost predicate Fits(y: int, sz: nat)
      reads this
    {
      y in ring && y !in used && y < size - sz && NextOf(ring, y) - (y + HDR) >= sz
    }

    /** Where a block but the last stands, and what its `next` field holds. */
    lemma BlockAt(h: int) returns (i: nat)
      requires Valid() && h in ring && h != size + HDR
      ensures i + 1 < |ring| && ring[i] == h && NextOf(ring, h) == ring[i + 1] && ring[i + 1] in ring
      ensures h in next && next[h] == ring[i + 1] && h + HDR <= ring[i + 1] <= size + HDR && 0 <= h
      ensures h % 4 == 0 && ring[i + 1] % 4 == 0
    {
      hide FreeSum, Chained, NoTwoFree;
      i := IndexOf(ring, h);
      ChainOf(next, prev, ring, i);
      Bounds(HDR, 0, size + HDR, ring, h);
    }

    /** The search loop of rt_malloc. */
    method FindFit(sz: nat) returns (p: int)
      requires Valid() && sz > 0
      ensures p < size - sz ==> Fits(p, sz) && lfree <= p
      ensures forall y :: y in ring && lfree <= y && (y < p || p >= size - sz) ==> !Fits(y, sz)
    {
      hide Tally, NoTwoFree, Chained, HeapLive.Over, NextOf;
      p := lfree;
      while p < size - sz
        invariant p in ring && lfree <= p
        invariant forall y :: y in ring && lfree <= y < p ==> !Fits(y, sz)
        decreases size + HDR - p
      {
        ghost var i := BlockAt(p);
        if p !in used && next[p] - (p + HDR) >= sz {
          return;
        }
        Between(i);
        p := next[p];
      }
    }

    lemma Between(i: nat)
      requires Valid() && i + 1 < |ring|
      ensures ring[i] < ring[i + 1]
      ensures forall y :: y in ring ==> y <= ring[i] || ring[i + 1] <= y
    {
      hide Tiled, FreeSum, NoTwoFree, Chained, NextOf;
      forall y | y in ring
        ensures ring[i] < ring[i + 1] && (y <= ring[i] || ring[i + 1] <= y)
      {
        NoneBetween(size + HDR, ring, i, y);
      }
      assert ring[i] in ring;
    }

    /** Gives out the whole free block `h`. */
    method TakeWhole(h: int, ghost i: nat)
      requires Valid() && i + 1 < |ring| && ring[i] == h && h !in used
      modifies this`used, this`usedMem, this`maxMem
      ensures Given(old(lfree), h) && h !in old(Owned()) && h in Owned() && Owned() == old(Owned())[h := Owned()[h]]
      ensures |Owned()[h]| == ring[i + 1] - h - HDR && usedMem == old(usedMem) + (ring[i + 1] - h)
      ensures used == old(used) + {h}
    {
      hide Tiled, FreeSum, Live, NoTwoFree, Chained;
      TallyMark(size + HDR, ring, used, usedMem, i);
      IndexIs(HDR, 0, size + HDR, ring, i);
      LiveMark(HDR, 0, size + HDR, ring, used, mem[..size + 2 * HDR], h);
      ApartMarked(ring, used, h);
      ChainOf(next, prev, ring, i);
      used := used + {h};
      usedMem := usedMem + (next[h] - h);
      maxMem := Max(maxMem, usedMem);
    }

    /** The state after block `h` has been given out, the hint not yet moved. */
    ghost predicate Given(hint: int, h: int)
      reads this, mem
    {
      && size >= MIN_SIZE
      && Whole() && Chained(next, prev, ring)
      && Tally(size + HDR, ring, used, usedMem) && NoTwoFree(ring, used)
      && usedMem <= maxMem && h in ring
      && lfree == hint && lfree in ring && (lfree !in used || lfree == size + HDR || lfree == h)
    }

    /** A new header is written at `x`, inside block `i`; header images that it overlaps and the
        bytes that it covers are destroyed. */
    method Carve(x: int, ghost i: nat)
      requires Whole() && Chained(next, prev, ring)
      requires i + 1 < |ring| && ring[i] + HDR <= x && x + HDR <= ring[i + 1]
      modifies this`next, this`prev, this`used, mem
      ensures Chained(next, prev, ring) && used == old(used)
      ensures SameBut(HDR, old(mem[..size + 2 * HDR]), mem[..size + 2 * HDR], x)
    {
      hide Chained;
      FitsBetween(HDR, 0, size + HDR, ring, i, x);
      TiledDistinct(HDR, 0, size + HDR, ring);
      ChainSurvives(next, prev, ring, x);
      next := Surviving(next, HDR, x);
      prev := Surviving(prev, HDR, x);
      used := used - {x};
      assert used == old(used);
      Clobber(mem, x, HDR);
    }

    /** Links the new block `x` in behind block `h`; the last block's `prev` is not kept up. */
    method InsertBlock(h: int, x: int, ghost i: nat)
      requires Chained(next, prev, ring) && i + 1 < |ring| && ring[i] == h && x !in ring
      requires ring[i + 1] == size + HDR <==> i + 2 == |ring|
      modifies this`next, this`prev, this`ring
      ensures Chained(next, prev, ring) && ring == Inserted(old(ring), i, x)
    {
      hide Chained, Inserted;
      ChainOf(next, prev, ring, i);
      ChainInserted(next, prev, ring, i, x);
      next := next[x := next[h]];
      prev := prev[x := h];
      next := next[h := x];
      if next[x] != size + HDR {
        prev := prev[next[x] := x];
      }
      ring := Inserted(ring, i, x);
    }

    lemma LastIs(i: nat)
      requires Whole() && i + 1 < |ring|
      ensures ring[i + 1] == size + HDR <==> i + 2 == |ring|
    {
      TiledDistinct(HDR, 0, size + HDR, ring);
    }

    /** Gives out the first `sz` bytes of the free block `h`; the rest becomes a free block. */
    method TakeSplit(h: int, sz: nat, ghost i: nat)
      requires Valid() && i + 1 < |ring| && ring[i] == h && h !in used && sz % 4 == 0 && h % 4 == 0
      requires h + HDR + sz + HDR <= ring[i + 1]
      modifies this`next, this`prev, this`used, this`usedMem, this`maxMem, this`ring, mem
      ensures Given(old(lfree), h) && h !in old(Owned()) && h in Owned() && Owned() == old(Owned())[h := Owned()[h]]
      ensures |Owned()[h]| == sz && usedMem == old(usedMem) + (sz + HDR)
      ensures used == old(used) + {h} && ring == Inserted(old(ring), i, h + HDR + sz)
    {
      hide Tiled, FreeSum, Live, NoTwoFree, Chained, Inserted, Tally, HeapLive.Over, SameBut;
      ghost var m, n := mem[..size + 2 * HDR], size + HDR;
      var x := h + HDR + sz;
      LastIs(i);
      Carve(x, i);
      FrontTaken(n, ring, used, usedMem, m, mem[..size + 2 * HDR], i, x);
      KeptMembers(ring, i, x);
      InsertBlock(h, x, i);
      used := used + {h};
      usedMem := usedMem + (sz + HDR);
      maxMem := Max(maxMem, usedMem);
    }

    /** Moves the hint, which stands on a used block, up to the next free block or the last one. */
    method MoveHint(h: int)
      requires Given(h, h)
      modifies this`lfree
      ensures Valid() && h <= lfree
      ensures forall y :: y in ring && h <= y < lfree ==> y in used
    {
      hide Tally, NoTwoFree, Chained, HeapLive.Over, NextOf;
      while lfree in used && lfree != size + HDR
        invariant lfree in ring && h <= lfree
        invariant forall y :: y in ring && h <= y < lfree ==> y in used
        decreases size + HDR - lfree
      {
        Step(lfree);
        lfree := next[lfree];
      }
    }

    /** The `next` field of a block leads to the block behind it. */
    lemma Step(p: int)
      requires Whole() && Chained(next, prev, ring) && p in ring && p != size + HDR
      ensures p in next && next[p] in ring && p < next[p] <= size + HDR
      ensures forall y :: y in ring ==> y <= p || next[p] <= y
    {
      hide Tiled, Chained;
      var i := IndexOf(ring, p);
      IndexIs(HDR, 0, size + HDR, ring, i);
      Bounds(HDR, 0, size + HDR, ring, p);
      NotAtEnd(i);
      ChainOf(next, prev, ring, i);
      forall y | y in ring
        ensures y <= p || next[p] <= y
      {
        NoneBetween(size + HDR, ring, i, y);
      }
    }

    lemma NotAtEnd(i: nat)
      requires Whole() && i < |ring| && ring[i] != size + HDR
      ensures i + 1 < |ring|
    {
    }

    /** rt_malloc: gives out the first block at or above the hint that fits, cutting off what is not
        needed when that makes a block of its own; while the hint is the lowest free block, that is
        the lowest block that fits. It fails exactly when there is none. */
    method Malloc(request: nat) returns (ptr: int)
      requires Valid()
      modifies this, mem
      ensures Valid() && (old(Lowest()) ==> Lowest())
      ensures ptr == NULL ==> unchanged(this) && unchanged(mem)
      ensures ptr == NULL ==> request == 0 || AlignUp(request) > size || NoneFits(Rounded(MIN_SIZE, request))
      ensures ptr == NULL && Lowest() ==> request == 0 || AlignUp(request) > size || forall y :: y in ring ==> !Fits(y, Rounded(MIN_SIZE, request))
      ensures ptr != NULL ==> ptr % 4 == 0 && request > 0 && AlignUp(request) <= size
      ensures ptr != NULL ==> old(Fits(ptr - HDR, Rounded(MIN_SIZE, request)) && FirstFrom(ptr - HDR, Rounded(MIN_SIZE, request)))
      ensures ptr != NULL && old(Lowest()) ==> forall y :: y in old(ring) && y < ptr - HDR ==> !old(Fits(y, Rounded(MIN_SIZE, request)))
      ensures ptr != NULL ==> Gave(request, old(Owned()), Owned(), ptr - HDR)
      ensures ptr == NULL ==> request == 0 || request > size || NoneHas(Max(request, MIN_SIZE))
      ensures ptr != NULL ==> 0 < request <= size && old(ptr - HDR in ring && ptr - HDR !in used && NoneBelow(ptr - HDR, Max(request, MIN_SIZE)))
    {
      hide Tally, NoTwoFree, Chained, HeapLive.Over, NextOf, Live, Inserted, Rounded, Heap.NoneHas, Heap.NoneBelow;
      WordSize(request);
      if request == 0 || AlignUp(request) > size {
        return NULL;
      }
      var sz := Rounded(MIN_SIZE, request);
      var h := FindFit(sz);
      if h >= size - sz {
        NoneIsFree(request);
        return NULL;
      }
      NoneIsBelow(request, h);
      GiveOut(h, sz);
      ptr := h + HDR;
    }

    /** Gives out the first free block that fits, and moves the hint on if it was there. */
    method GiveOut(h: int, sz: nat)
      requires Valid() && sz % 4 == 0 && sz >= MIN_SIZE && Fits(h, sz) && FirstFrom(h, sz)
      modifies this, mem
      ensures Valid() && (old(Lowest()) ==> Lowest())
      ensures (h + HDR) % 4 == 0 && h >= 0 && h !in old(Owned()) && h in Owned()
      ensures Owned() == old(Owned())[h := Owned()[h]] && sz <= |Owned()[h]| < sz + HDR + MIN_SIZE
    {
      hide Tally, NoTwoFree, Chained, HeapLive.Over, NextOf, Live, Inserted;
      ghost var i := BlockAt(h);
      if next[h] - (h + HDR) >= sz + HDR + MIN_SIZE {
        KeptMembers(ring, i, h + HDR + sz);
        TakeSplit(h, sz, i);
      } else {
        TakeWhole(h, i);
      }
      if h == lfree {
        MoveHint(h);
      }
    }

    /** No free block at or above the hint has `n` bytes, but for one that ends less than a word behind
        them at the end of the heap: that one is passed over. */
    ghost predicate NoneHas(n: int)
      reads this
    {
      forall y :: y in ring && y !in used && lfree <= y && y + n + 4 <= size ==> NextOf(ring, y) - y - HDR < n
    }

    /** No free block from the hint up to `h` has `n` bytes. */
    ghost predicate NoneBelow(h: int, n: int)
      reads this
    {
      forall y :: y in ring && y !in used && lfree <= y < h ==> NextOf(ring, y) - y - HDR < n
    }

    lemma WordSize(n: nat)
      requires Valid()
      ensures size % 4 == 0 && (AlignUp(n) > size <==> n > size)
    {
      hide FreeSum, NoTwoFree, Chained, AlignUp, NextOf, Live;
      assert ring[|ring| - 1] == size + HDR && ring[|ring| - 1] % 4 == 0;
      AlignedAbove(n, size);
    }

    /** Where a free block starts and how large it is, in words. */
    lemma FitsWhen(n: nat, y: int)
      requires Valid() && y in ring && y !in used
      ensures Fits(y, Rounded(MIN_SIZE, n)) <==>
        y + Max(n, MIN_SIZE) + 4 <= size && NextOf(ring, y) - y - HDR >= Max(n, MIN_SIZE)
    {
      hide Tally, NoTwoFree, Chained, HeapLive.Over, NextOf, Live, Rounded;
      WordSize(n);
      EndUsed();
      var i := BlockAt(y);
      RoundedFits(n, y, ring[i + 1], size);
    }

    lemma EndUsed()
      requires Valid()
      ensures size + HDR in used
    {
    }

    lemma NoneIsFree(n: nat)
      requires Valid() && NoneFits(Rounded(MIN_SIZE, n))
      ensures NoneHas(Max(n, MIN_SIZE))
    {
      hide Tally, NoTwoFree, Chained, HeapLive.Over, NextOf, Live, Rounded, Heap.Fits;
      forall y | y in ring && y !in used && lfree <= y && y + Max(n, MIN_SIZE) + 4 <= size
        ensures NextOf(ring, y) - y - HDR < Max(n, MIN_SIZE)
      {
        FitsWhen(n, y);
      }
    }

    lemma NoneIsBelow(n: nat, h: int)
      requires Valid() && FirstFrom(h, Rounded(MIN_SIZE, n)) && Fits(h, Rounded(MIN_SIZE, n))
      ensures NoneBelow(h, Max(n, MIN_SIZE))
    {
      hide Tally, NoTwoFree, Chained, HeapLive.Over, NextOf, Live, Rounded, Heap.Fits;
      assert h in ring && h !in used by { FitsFree(n, h); }
      FitsWhen(n, h);
      forall y | y in ring && y !in used && lfree <= y < h
        ensures NextOf(ring, y) - y - HDR < Max(n, MIN_SIZE)
      {
        FitsWhen(n, y);
      }
    }

    lemma FitsFree(n: nat, h: int)
      requires Fits(h, Rounded(MIN_SIZE, n))
      ensures h in ring && h !in used
    {
    }

    /** No block between the hint and `h` fits. */
    ghost predicate FirstFrom(h: int, sz: nat)
      reads this
    {
      lfree <= h && forall y :: y in ring && lfree <= y < h ==> !Fits(y, sz)
    }

    // ---- freeing ------------------------------------------------------------------------------

    /** rt_free: gives a block back and merges it with its free neighbours. A pointer outside the
        heap is ignored. */
    method Free(ptr: int)
      requires Valid() && (ptr == NULL || ptr < 0 || ptr >= size + HDR || ptr - HDR in Owned())
      modifies this`next, this`prev, this`ring, this`lfree, this`used, this`usedMem
      ensures Valid() && (old(Lowest()) ==> Lowest())
      ensures Owned() == if ptr == NULL || ptr < 0 || ptr >= size + HDR then old(Owned()) else old(Owned()) - {ptr - HDR}
    {
      hide Tally, NoTwoFree, Chained, HeapLive.Over, NextOf, Live, ApartAround;
      if ptr == NULL || ptr < 0 || ptr >= size + HDR {
        return;
      }
      var h := ptr - HDR;
      ghost var i := OwnedAt(h);
      Release(h, i);
      PlugHoles(h, i);
    }

    /** Marks block `h` free, and lowers the hint to it. */
    method Release(h: int, ghost i: nat)
      requires Valid() && i + 1 < |ring| && ring[i] == h && h in used
      modifies this`lfree, this`used, this`usedMem
      ensures Holed(h, i) && Owned() == old(Owned()) - {h} && (old(Lowest()) ==> Lowest())
    {
      hide NoTwoFree, Chained, Live, ApartAround, FreeSum, Tiled, Tally, Distinct, NextOf;
      ghost var u, n := used, size + HDR;
      TallyUnmark(n, ring, used, usedMem, i);
      LiveUnmark(HDR, 0, n, ring, used, mem[..size + 2 * HDR], h);
      TiledDistinct(HDR, 0, n, ring);
      AroundFreed(ring, used, i);
      IndexIs(HDR, 0, n, ring, i);
      ChainOf(next, prev, ring, i);
      used := used - {h};
      if h < lfree {
        lfree := h;
      }
      usedMem := usedMem - (next[h] - h);
    }

    /** Where the bytes of an owned block lie. */
    lemma OwnedAt(h: int) returns (i: nat)
      requires Valid() && h in Owned()
      ensures h in used && h in ring && h != size + HDR && 0 <= h && h % 4 == 0 && h + HDR + |Owned()[h]| <= size + HDR
      ensures i + 1 < |ring| && ring[i] == h && ring[i + 1] == h + HDR + |Owned()[h]|
      ensures h in next && next[h] == ring[i + 1] == NextOf(ring, h)
      ensures Owned()[h] == mem[..size + 2 * HDR][h + HDR..ring[i + 1]]
    {
      hide Tally, NoTwoFree, Chained, NextOf, Live, Tiled;
      i := BlockAt(h);
      PayloadOf(HDR, 0, size + HDR, ring, used, mem[..size + 2 * HDR], i);
    }

    // ---- resizing -----------------------------------------------------------------------------

    /** Gives the end of the used block `h` back, keeping `sz` bytes. The hint is not lowered to
        the new free block: it stays the lowest free block exactly when it was below `h`, or was
        the free block behind it. */
    method Shrink(h: int, sz: nat)
      requires Valid() && h in Owned() && sz % 4 == 0 && sz + HDR + MIN_SIZE < |Owned()[h]|
      modifies this`next, this`prev, this`ring, this`lfree, this`used, this`usedMem, mem
      ensures Valid() && h in Owned() && Owned() == old(Owned())[h := Owned()[h]]
      ensures |Owned()[h]| == sz && Owned()[h] <= old(Owned())[h]
      ensures old(Lowest()) ==> (Lowest() <==> old(lfree) < h || old(HintBehind(h)))
    {
      hide Tally, NoTwoFree, Chained, HeapLive.Over, NextOf, Live, Inserted, ApartAround, SameBut;
      ghost var i := OwnedAt(h);
      ghost var r, m, n, u := ring, mem[..size + 2 * HDR], size + HDR, usedMem;
      var x, oldsize := h + HDR + sz, next[h] - h - HDR;
      Between(i);
      LastIs(i);
      Carve(x, i);
      EndCut(n, r, used, u, m, mem[..size + 2 * HDR], i, x);
      KeptMembers(r, i, x);
      InsertedBehind(r, i, x);
      usedMem := usedMem - (oldsize - sz);
      InsertBlock(h, x, i);
      PlugHoles(x, i + 1);
    }

    /** The hint is the free block right behind block `h`. */
    ghost predicate HintBehind(h: int)
      reads this
    {
      h in ring && lfree == NextOf(ring, h) && lfree !in used
    }

    /** rt_memcpy from one owned block to another. */
    method CopyPayload(p: int, q: int, n: nat)
      requires Valid() && p - HDR in Owned() && q - HDR in Owned() && p != q
      requires n <= |Owned()[p - HDR]| && n <= |Owned()[q - HDR]|
      modifies mem
      ensures Valid() && p - HDR in Owned() && Owned() == old(Owned())[p - HDR := Owned()[p - HDR]]
      ensures |Owned()[p - HDR]| == |old(Owned())[p - HDR]| && Owned()[p - HDR][..n] == old(Owned())[q - HDR][..n]
      ensures Lowest() == old(Lowest())
    {
      hide Tally, NoTwoFree, Chained, HeapLive.Over, NextOf, Live, Tiled;
      ghost var i := OwnedAt(p - HDR);
      ghost var j := OwnedAt(q - HDR);
      BlocksApart(p - HDR, q - HDR);
      ghost var m := mem[..size + 2 * HDR];
      MemCopyBelow(mem, size + 2 * HDR, p, q, n);
      LiveCopied(HDR, 0, size + HDR, ring, used, m, mem[..size + 2 * HDR], i, j, n);
    }

    /** A user of the heap stores a byte in a block of its own. */
    method Poke(ptr: int, i: nat, b: Byte)
      requires Valid() && ptr - HDR in Owned() && i < |Owned()[ptr - HDR]|
      modifies mem
      ensures Valid() && Owned() == old(Owned())[ptr - HDR := WithByte(old(Owned())[ptr - HDR], i, b)]
    {
      hide Tally, NoTwoFree, Chained, HeapLive.Over, NextOf, Live, Tiled;
      ghost var j := OwnedAt(ptr - HDR);
      ghost var m := mem[..size + 2 * HDR];
      mem[ptr + i] := b;
      LiveWritten(HDR, 0, size + HDR, ring, used, m, mem[..size + 2 * HDR], j);
      assert mem[..size + 2 * HDR][ptr..ring[j + 1]] == WithByte(m[ptr..ring[j + 1]], i, b);
    }

    /** No block in use lies at the null pointer. */
    lemma NoNull()
      requires Valid()
      ensures NULL - HDR !in Owned()
    {
      if NULL - HDR in Owned() {
        var i := OwnedAt(NULL - HDR);
      }
    }

    /** The bytes of two owned blocks do not overlap. */
    lemma BlocksApart(g: int, h: int)
      requires Valid() && g in Owned() && h in Owned() && g != h
      ensures g + HDR + |Owned()[g]| <= h || h + HDR + |Owned()[h]| <= g
    {
      hide Tally, NoTwoFree, Chained, Live, Tiled;
      var i := OwnedAt(g);
      var j := OwnedAt(h);
      IndexIs(HDR, 0, size + HDR, ring, i);
      IndexIs(HDR, 0, size + HDR, ring, j);
      LiveDisjoint(HDR, 0, size + HDR, ring, g, h);
    }

    /** No block at or above the hint fits. */
    ghost predicate NoneFits(sz: nat)
      reads this
    {
      forall y :: y in ring && lfree <= y ==> !Fits(y, sz)
    }

    /** The block has the size already, or is so much larger that its end makes a block. */
    ghost predicate StaysInPlace(h: int, sz: nat)
      reads this
    {
      h in ring && var oldsize := NextOf(ring, h) - h - HDR;
      oldsize == sz || sz + HDR + MIN_SIZE < oldsize
    }

    /** A resize of the block at `ptr` to `sz` bytes cuts off a free block that lies below the hint. */
    ghost predicate CutsFrom(ptr: int, sz: nat)
      reads this
    {
      && sz <= size && ptr != NULL && 0 <= ptr < size + HDR && ptr - HDR in ring
      && sz + HDR + MIN_SIZE < NextOf(ring, ptr - HDR) - ptr
      && !(lfree < ptr - HDR || HintBehind(ptr - HDR))
    }

    /** Moves the first bytes of an owned block to a new one. */
    method MoveBlock(ptr: int, n: nat, sz: nat) returns (p: int)
      requires Valid() && ptr != NULL && ptr < size + HDR && ptr - HDR in Owned()
      requires n <= |Owned()[ptr - HDR]| && n <= sz && sz % 4 == 0
      modifies this, mem
      ensures Valid() && (p == NULL ==> Owned() == old(Owned()) && (sz == 0 || sz > size || NoneFits(Rounded(MIN_SIZE, sz))))
      ensures p != NULL ==> p - HDR !in old(Owned()) && p - HDR in Owned() && sz <= |Owned()[p - HDR]| <= Rounded(MIN_SIZE, sz) + HDR + MIN_SIZE
      ensures sz == 0 ==> p == NULL
      ensures old(Lowest()) ==> Lowest()
      ensures p != NULL ==> Owned() == (old(Owned()) - {ptr - HDR})[p - HDR := Owned()[p - HDR]]
      ensures p != NULL ==> Owned()[p - HDR][..n] == old(Owned())[ptr - HDR][..n]
    {
      hide Tally, NoTwoFree, Chained, HeapLive.Over, NextOf, Live, Tiled;
      ghost var i := OwnedAt(ptr - HDR);
      p := Malloc(sz);
      if p != NULL {
        ghost var b1 := Owned()[p - HDR];
        assert Owned() == old(Owned())[p - HDR := b1];
        CopyPayload(p, ptr, n);
        ghost var b2 := Owned()[p - HDR];
        assert Owned() == old(Owned())[p - HDR := b1][p - HDR := b2];
        MapMoved(old(Owned()), ptr - HDR, p - HDR, b1, b2);
        Free(ptr);
        assert Owned() == (old(Owned()) - {ptr - HDR})[p - HDR := b2];
      }
    }

    /** rt_realloc: shrinks a block in place when that frees a block of its own, keeps it when the
        size is the same, and else moves it. The bytes that both sizes have in common stay, and so
        do all other blocks; nothing changes when it fails. A hint at the lowest free block stays
        there unless a free block is cut off below it. */
    method Realloc(ptr: int, newsize: nat) returns (res: int)
      requires Valid() && (ptr == NULL || ptr < 0 || ptr >= size + HDR || ptr - HDR in Owned())
      modifies this, mem
      ensures Valid()
      ensures AlignUp(newsize) > size || (newsize == 0 && ptr == NULL) ==> res == NULL
      ensures res == NULL ==> Owned() == old(Owned())
      ensures res == NULL ==> newsize == 0 || AlignUp(newsize) > size || NoneFits(Rounded(MIN_SIZE, newsize))
      ensures res == NULL ==> newsize == 0 || newsize > size || NoneHas(Max(newsize, MIN_SIZE))
      ensures res != NULL && ptr == NULL ==> Gave(newsize, old(Owned()), Owned(), res - HDR)
      ensures res != NULL && (ptr < 0 || ptr >= size + HDR) ==> res == ptr && Owned() == old(Owned())
      ensures res != NULL && ptr != NULL && 0 <= ptr < size + HDR ==>
        Resized(old(Owned()), Owned(), ptr - HDR, res - HDR, AlignUp(newsize))
      ensures ptr != NULL && 0 <= ptr < size + HDR && AlignUp(newsize) <= size && old(StaysInPlace(ptr - HDR, AlignUp(newsize))) ==>
        res == ptr && Keeps(AlignUp(newsize), ptr - HDR, Owned())
      ensures newsize == 0 && ptr != NULL && 0 <= ptr < size + HDR ==> res == if old(StaysInPlace(ptr - HDR, 0)) then ptr else NULL
      ensures old(Lowest()) ==> (Lowest() <==> !old(CutsFrom(ptr, AlignUp(newsize))))
    {
      hide Tally, NoTwoFree, Chained, HeapLive.Over, NextOf, Live, Tiled, Heap.NoneHas, Heap.NoneFits;
      WordSize(newsize);
      RoundedAligned(newsize);
      var sz := AlignUp(newsize);
      if sz > size {
        return NULL;
      }
      if ptr == NULL {
        res := Malloc(sz);
        if res != NULL { GaveAligned(newsize, old(Owned()), Owned(), res - HDR); }
        if res == NULL && NoneFits(Rounded(MIN_SIZE, newsize)) { NoneIsFree(newsize); }
        return;
      }
      if ptr < 0 || ptr >= size + HDR {
        return ptr;
      }
      res := ResizeBlock(ptr, sz);
      if res == NULL && NoneFits(Rounded(MIN_SIZE, newsize)) { NoneIsFree(newsize); }
    }

    /** rt_realloc for an aligned size and a pointer into the heap. */
    method ResizeBlock(ptr: int, sz: nat) returns (res: int)
      requires Valid() && ptr != NULL && 0 <= ptr < size + HDR && ptr - HDR in Owned() && sz % 4 == 0 && sz <= size
      modifies this, mem
      ensures Valid()
      ensures res == NULL ==> Owned() == old(Owned()) && (sz == 0 || NoneFits(Rounded(MIN_SIZE, sz)))
      ensures res != NULL ==> Resized(old(Owned()), Owned(), ptr - HDR, res - HDR, sz)
      ensures old(StaysInPlace(ptr - HDR, sz)) ==> res == ptr && Keeps(sz, ptr - HDR, Owned())
      ensures sz == 0 && !old(StaysInPlace(ptr - HDR, sz)) ==> res == NULL
      ensures old(Lowest()) ==> (Lowest() <==> !old(CutsFrom(ptr, sz)))
    {
      hide Tally, NoTwoFree, Chained, HeapLive.Over, NextOf, Live, Tiled;
      var h := ptr - HDR;
      ghost var i := OwnedAt(h);
      var oldsize := next[h] - h - HDR;
      if oldsize == sz {
        assert Owned() == (old(Owned()) - {h})[h := Owned()[h]];
        return ptr;
      }
      if sz + HDR + MIN_SIZE < oldsize {
        Shrink(h, sz);
        return ptr;
      }
      res := MoveBlock(ptr, if oldsize < sz then oldsize else sz, sz);
    }
  }

  /** Block `h` is new, and large enough for `n` bytes without wasting a block. */
  ghost predicate Gave(n: nat, was: map<int, seq<Byte>>, now: map<int, seq<Byte>>, h: int) {
    && h !in was && h in now && now == was[h := now[h]]
    && Max(n, MIN_SIZE) <= |now[h]| < Max(n, MIN_SIZE) + 4 + HDR + MIN_SIZE
    && Rounded(MIN_SIZE, n) <= |now[h]| < Rounded(MIN_SIZE, n) + HDR + MIN_SIZE
  }

  lemma GaveAligned(n: nat, was: map<int, seq<Byte>>, now: map<int, seq<Byte>>, h: int)
    requires Gave(AlignUp(n), was, now, h)
    ensures Gave(n, was, now, h)
  {
    RoundedAligned(n);
    hide Rounded, AlignUp;
  }

  /** Block `h` has `sz` bytes. */
  ghost predicate Keeps(sz: nat, h: int, now: map<int, seq<Byte>>) {
    h in now && |now[h]| == sz
  }

  /** Block `h` of `was` has become block `h'` of `now`, with room for `sz` bytes; the bytes that
      both sizes have in common and all other blocks stay. */
  ghost predicate Resized(was: map<int, seq<Byte>>, now: map<int, seq<Byte>>, h: int, h': int, sz: nat) {
    && h in was && h' in now && (h' == h || h' !in was)
    && now == (was - {h})[h' := now[h']]
    && sz <= |now[h']| <= Rounded(MIN_SIZE, sz) + HDR + MIN_SIZE
    && var k := if |was[h]| < sz then |was[h]| else sz;
    now[h'][..k] == was[h][..k]
  }
}
