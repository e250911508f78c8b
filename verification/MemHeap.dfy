/** The memory heap: a pool of bytes cut into blocks. Every block starts with a header whose links
    form a circle in address order; the headers of the unused blocks form a second circle, the
    free list, with a header of its own. Addresses are offsets from the start of the pool; the
    free list's own header lies outside the pool. */
module MemHeap {
  import opened Arithmetic
  import opened Bytes
  import opened DoubleLinks
  import opened HeapTiling
  import opened HeapBooks
  import opened HeapLive
  import opened HeapSteps

  const FREE_HEADER: int := -1

  /** The null pointer; no payload starts at the pool's own start. */
  const NULL: int := 0

  lemma OutsideDropped(xs: seq<int>, k: nat, x: int)
    requires k < |xs| && x !in xs
    ensures x !in Dropped(xs, k)
  {
  }

  lemma FirstBooks(end: int, m: seq<Byte>)
    requires end % 4 == 0 && end >= HDR + MINIALLOC && |m| == end + HDR
    ensures Kept(end, [0, end], {end}, [0], end - HDR) && HeapLive.Over(HDR, MINIALLOC, end, [0, end], {end}, m)
    ensures Live(HDR, MINIALLOC, end, [0, end], {end}, m) == map[]
  {
    assert [0, end][1..] == [end];
    assert Tiled(HDR, MINIALLOC, end, [0, end]);
    assert FreeSum(HDR, [0, end], {end}) == end - HDR;
  }

  lemma FirstLinks(f: map<int, int>, end: int)
    requires f == map[0 := end, end := 0] && end != 0
    ensures Links(f, f, [0, end])
  {
  }

  lemma FirstFrees(f: map<int, int>, b: map<int, int>)
    requires 0 in f && 0 in b && f[0] == FREE_HEADER == b[0]
    requires FREE_HEADER in f && FREE_HEADER in b && f[FREE_HEADER] == 0 == b[FREE_HEADER]
    ensures Links(f, b, [FREE_HEADER] + [0])
  {
  }

  lemma RoundedTwice(n: nat)
    ensures Rounded(MINIALLOC, Rounded(MINIALLOC, n)) == Rounded(MINIALLOC, n)
  {
  }

  lemma RoundedOver(n: nat)
    ensures Max(n, MINIALLOC) <= Rounded(MINIALLOC, n) < Max(n, MINIALLOC) + 4 && Rounded(MINIALLOC, n) % 4 == 0
  {
  }

  lemma RoundedRoom(n: nat, room: int)
    requires room % 4 == 0
    ensures room >= Rounded(MINIALLOC, n) <==> room >= Max(n, MINIALLOC)
  {
    if room >= 0 { RoundedLeast(MINIALLOC, n, room); }
  }

  lemma Difference(a: int, h: int)
    requires a % 4 == 0 && h % 4 == 0
    ensures (a - h - HDR) % 4 == 0
  {
  }

  class Heap {
    const size: nat
    const mem: array<Byte>
    var next: map<int, int>
    var prev: map<int, int>
    var nextFree: map<int, int>
    var prevFree: map<int, int>
    var used: set<int>
    var available: int
    var maxUsed: int
    ghost var ring: seq<int>
    ghost var frees: seq<int>

    /** rt_memheap_init: one free block and a used tailer. */
    constructor (pool: array<Byte>)
      requires pool.Length >= 2 * HDR + MINIALLOC
      ensures Valid() && mem == pool && size == pool.Length / 4 * 4
      ensures Owned() == map[] && available == size - 2 * HDR
      ensures ring == [0, size - HDR] && used == {size - HDR} && frees == [0]
    {
      var sz := pool.Length / 4 * 4;
      size, mem := sz, pool;
      available := sz - 2 * HDR;
      maxUsed := 2 * HDR;
      var tailer := sz - HDR;
      next := map[0 := tailer, tailer := 0];
      prev := map[0 := tailer, tailer := 0];
      nextFree := map[FREE_HEADER := 0, 0 := FREE_HEADER, tailer := NULL];
      prevFree := map[FREE_HEADER := 0, 0 := FREE_HEADER, tailer := NULL];
      used := {tailer};
      ring := [0, tailer];
      frees := [0];
      new;
      hide Kept, Links, HeapLive.Over;
      FirstBooks(tailer, mem[..size]);
      FirstLinks(next, tailer);
      FirstFrees(nextFree, prevFree);
    }

    /** The links of the headers form the circle of blocks and the free list. */
    ghost predicate Linked()
      reads this
    {
      Links(next, prev, ring) && Links(nextFree, prevFree, [FREE_HEADER] + frees)
    }

    ghost predicate Valid()
      reads this, mem
    {
      && Whole()
      && Linked()
      && Kept(size - HDR, ring, used, frees, available)
      && size - available <= maxUsed
    }

    /** The blocks tile the pool. */
    ghost predicate Whole()
      reads this, mem
    {
      size <= mem.Length && HeapLive.Over(HDR, MINIALLOC, size - HDR, ring, used, mem[..size])
    }

    /** What the users of the heap own: the bytes of every block in use but the tailer. */
    ghost function Owned(): map<int, seq<Byte>>
      requires Whole()
      reads this, mem
    {
      Live(HDR, MINIALLOC, size - HDR, ring, used, mem[..size])
    }

    // ---- headers ------------------------------------------------------------------------------

    /** A new header is written at `x`. Header images that it overlaps are destroyed, and so are
        the bytes it covers. */
    method Carve(x: int)
      requires Linked() && size <= mem.Length && HDR <= x && x + HDR <= size
      requires forall y :: y in ring ==> y + HDR <= x || x + HDR <= y
      requires (forall y :: y in frees ==> y in ring) && (forall y :: y in used ==> y in ring)
      modifies this`next, this`prev, this`nextFree, this`prevFree, this`used, mem
      ensures Linked() && used == old(used)
      ensures forall p :: 0 <= p < size && !(x <= p < x + HDR) ==> mem[p] == old(mem[p])
    {
      hide Links, Surviving;
      SurvivingLinks(next, prev, ring, HDR, x);
      SurvivingLinks(nextFree, prevFree, [FREE_HEADER] + frees, HDR, x);
      next := Surviving(next, HDR, x);
      prev := Surviving(prev, HDR, x);
      nextFree := Surviving(nextFree, HDR, x);
      prevFree := Surviving(prevFree, HDR, x);
      used := used - {x};
      assert used == old(used);
      Clobber(mem, x, HDR);
    }

    /** Links block `x` in behind block `h`. */
    method InsertBlock(h: int, x: int, ghost i: nat)
      requires Linked() && i < |ring| && ring[i] == h && x !in ring
      modifies this`next, this`prev, this`ring
      ensures Linked() && ring == Inserted(old(ring), i, x)
    {
      Insert(next, prev, ring, i, x);
      var n := next[h];
      prev := prev[x := h];
      next := next[x := n];
      prev := prev[n := x];
      next := next[h := x];
      ring := Inserted(ring, i, x);
    }

    /** Takes block `x` out of the circle of blocks. */
    method DropBlock(x: int, ghost i: nat)
      requires Linked() && 0 < i < |ring| && ring[i] == x
      modifies this`next, this`prev, this`ring
      ensures Linked() && ring == Dropped(old(ring), i)
    {
      Drop(next, prev, ring, i);
      var n, p := next[x], prev[x];
      prev := prev[n := p];
      next := next[p := n];
      ring := Dropped(ring, i);
    }

    /** Puts block `x` at the head of the free list. */
    method PushFree(x: int)
      requires Linked() && x !in frees && x != FREE_HEADER
      modifies this`nextFree, this`prevFree, this`frees
      ensures Linked() && frees == [x] + old(frees)
    {
      Insert(nextFree, prevFree, [FREE_HEADER] + frees, 0, x);
      var n := nextFree[FREE_HEADER];
      nextFree := nextFree[x := n];
      prevFree := prevFree[x := FREE_HEADER];
      prevFree := prevFree[n := x];
      nextFree := nextFree[FREE_HEADER := x];
      assert Inserted([FREE_HEADER] + frees, 0, x) == [FREE_HEADER] + ([x] + frees);
      frees := [x] + frees;
    }

    /** Takes block `x` out of the free list. */
    method Unlink(x: int, ghost k: nat)
      requires Linked() && k < |frees| && frees[k] == x
      modifies this`nextFree, this`prevFree, this`frees
      ensures Linked() && frees == Dropped(old(frees), k)
    {
      Drop(nextFree, prevFree, [FREE_HEADER] + frees, k + 1);
      var n, p := nextFree[x], prevFree[x];
      prevFree := prevFree[n := p];
      nextFree := nextFree[p := n];
      assert Dropped([FREE_HEADER] + frees, k + 1) == [FREE_HEADER] + Dropped(frees, k);
      frees := Dropped(frees, k);
    }

    /** Clears the free links of a block that is not in the free list. */
    method ClearFree(x: int)
      requires Linked() && x !in frees && x != FREE_HEADER
      modifies this`nextFree, this`prevFree
      ensures Linked()
    {
      LinksKept(nextFree, prevFree, nextFree[x := NULL], prevFree[x := NULL], [FREE_HEADER] + frees);
      nextFree := nextFree[x := NULL];
      prevFree := prevFree[x := NULL];
    }

    // ---- blocks -------------------------------------------------------------------------------

    /** The free bytes of block `h`: MEMITEM_SIZE. */
    ghost function Room(h: int): int
      requires h in ring
      reads this
    {
      NextOf(ring, h) - h - HDR
    }

    /** The `next` field of a block, and where the block stands in the circle. */
    lemma BlockAt(h: int) returns (i: nat)
      requires Valid() && h in ring && h != size - HDR
      ensures i + 1 < |ring| && ring[i] == h && NextOf(ring, h) == ring[i + 1]
      ensures h in next && next[h] == ring[i + 1] && h + HDR + MINIALLOC <= ring[i + 1] <= size - HDR && 0 <= h
      ensures h % 4 == 0 && ring[i + 1] % 4 == 0
      ensures ring[i + 1] in ring && (ring[i] in used || ring[i + 1] in used)
    {
      hide Links, FreeSum;
      i := IndexOf(ring, h);
      LinksOf(next, prev, ring, i);
      Bounds(HDR, MINIALLOC, size - HDR, ring, h);
    }

    /** The members of the free list are unused blocks. */
    lemma FreeAt(k: nat)
      requires Valid() && k < |frees|
      ensures frees[k] in ring && frees[k] !in used && frees[k] != size - HDR && frees[k] >= 0
    {
      hide Links, FreeSum;
      assert frees[k] in frees;
      TiledDistinct(HDR, MINIALLOC, size - HDR, ring);
    }

    /** The search of rt_memheap_alloc: the first block of the free list with enough room. */
    method FindFit(sz: nat) returns (h: int, room: int, ghost k: nat)
      requires Valid() && 0 < sz
      ensures k <= |frees| && forall j :: 0 <= j < k ==> frees[j] in ring && Room(frees[j]) < sz
      ensures room >= sz <==> k < |frees|
      ensures k < |frees| ==> h == frees[k] && h in ring && room == Room(h)
    {
      hide Links, Books, FreeSum, NoTwoFree;
      k := 0;
      LinksOf(nextFree, prevFree, [FREE_HEADER] + frees, 0);
      room, h := 0, nextFree[FREE_HEADER];
      while h != FREE_HEADER && room < sz
        invariant k <= |frees| && h == if k < |frees| then frees[k] else FREE_HEADER
        invariant forall j :: 0 <= j < k ==> frees[j] in ring && Room(frees[j]) < sz
        invariant room < sz || (k < |frees| && h in ring && room == Room(h))
        decreases |frees| - k, sz - room
      {
        FreeAt(k);
        ghost var i := BlockAt(h);
        room := next[h] - h - HDR;
        if room < sz {
          LinksOf(nextFree, prevFree, [FREE_HEADER] + frees, k + 1);
          h := nextFree[h];
          k := k + 1;
        }
      }
      if k < |frees| { FreeAt(k); }
    }

    // ---- allocating ---------------------------------------------------------------------------

    /** Gives out the whole free block `h`. */
    method TakeWhole(h: int, room: int, ghost k: nat)
      requires Valid() && k < |frees| && frees[k] == h && h in ring && room == Room(h)
      modifies this
      ensures Valid() && available == old(available) - room && maxUsed == Max(old(maxUsed), size - available)
      ensures h !in old(Owned()) && h in Owned() && Owned() == old(Owned())[h := Owned()[h]] && |Owned()[h]| == room
    {
      hide Links, FreeSum, Tiled, Live;
      FreeAt(k);
      ghost var i := BlockAt(h);
      BooksMark(size - HDR, ring, used, frees, available, i, k);
      LiveMark(HDR, MINIALLOC, size - HDR, ring, used, mem[..size], h);
      InDropped(frees, k);
      available := available - room;
      maxUsed := Max(maxUsed, size - available);
      Unlink(h, k);
      ClearFree(h);
      used := used + {h};
    }

    /** Gives out the first `sz` bytes of the free block `h`; the rest becomes a free block. */
    method TakeSplit(h: int, sz: nat, ghost k: nat)
      requires Valid() && k < |frees| && frees[k] == h && h in ring && Room(h) >= sz + HDR + MINIALLOC
      requires sz >= MINIALLOC && sz % 4 == 0
      modifies this, mem
      ensures Valid() && available == old(available) - sz - HDR && maxUsed == Max(old(maxUsed), size - available)
      ensures h !in old(Owned()) && h in Owned() && Owned() == old(Owned())[h := Owned()[h]] && |Owned()[h]| == sz
    {
      hide Links, FreeSum, Tiled, Live, Inserted, Dropped, NoTwoFree, Books, HeapLive.Over, SameBut;
      FreeAt(k);
      ghost var i := BlockAt(h);
      ghost var r, f, u, m, a, end := ring, frees, used, mem[..size], available, size - HDR;
      var x := h + sz + HDR;
      CarveIn(x, i, a);
      SplitTaken(end, r, u, f, a, m, mem[..size], i, k, x);
      InsertBlock(h, x, i);
      Unlink(h, k);
      GoneFromList(end, r, u, f, a, k);
      OutsideDropped(f, k, x);
      ClearFree(h);
      PushFree(x);
      Account(h, sz + HDR);
    }

    /** Block `h` is used from now on, and `n` bytes are not free any more. */
    method Account(h: int, n: nat)
      requires Linked() && Kept(size - HDR, ring, used + {h}, frees, available - n) && size - available <= maxUsed
      requires size <= mem.Length && HeapLive.Over(HDR, MINIALLOC, size - HDR, ring, used + {h}, mem[..size])
      modifies this`available, this`maxUsed, this`used
      ensures Valid() && available == old(available) - n && maxUsed == Max(old(maxUsed), size - available)
      ensures Owned() == Live(HDR, MINIALLOC, size - HDR, ring, old(used) + {h}, mem[..size])
    {
      hide Links, Kept, Live, HeapLive.Over;
      available := available - n;
      maxUsed := Max(maxUsed, size - available);
      used := used + {h};
    }

    /** Carves a header inside the payload of the `i`-th block. */
    method CarveIn(x: int, ghost i: nat, ghost avail: int)
      requires Linked() && size <= mem.Length && Books(size - HDR, ring, used, frees, avail)
      requires i + 1 < |ring| && ring[i] + HDR <= x && x + HDR <= ring[i + 1]
      modifies this`next, this`prev, this`nextFree, this`prevFree, this`used, mem
      ensures Linked() && used == old(used) && x !in ring
      ensures SameBut(HDR, old(mem[..size]), mem[..size], x)
    {
      hide Links, FreeSum;
      TiledDistinct(HDR, MINIALLOC, size - HDR, ring);
      FitsBetween(HDR, MINIALLOC, size - HDR, ring, i, x);
      Carve(x);
    }

    /** rt_memheap_alloc: gives out the first block of the free list that is large enough, cutting
        off what is not needed when that makes a block of its own. It fails exactly when no free
        block is large enough or the request is not below the number of free bytes. */
    method Alloc(request: nat) returns (ptr: int)
      requires Valid()
      modifies this, mem
      ensures Valid()
      ensures ptr == NULL ==> available <= Rounded(MINIALLOC, request) || NoBlock(Max(request, MINIALLOC))
      ensures ptr == NULL ==> unchanged(this) && unchanged(mem)
      ensures ptr != NULL ==> Rounded(MINIALLOC, request) < old(available) && old(FirstFit(Max(request, MINIALLOC), ptr - HDR))
      ensures ptr != NULL ==> ptr % 4 == 0 && ptr - HDR !in old(Owned()) && ptr - HDR in Owned()
      ensures ptr != NULL ==> Owned() == old(Owned())[ptr - HDR := Owned()[ptr - HDR]]
      ensures ptr != NULL ==> Max(request, MINIALLOC) <= |Owned()[ptr - HDR]| < Max(request, MINIALLOC) + 4 + HDR + MINIALLOC
      ensures ptr != NULL ==> Rounded(MINIALLOC, request) <= |Owned()[ptr - HDR]| < Rounded(MINIALLOC, request) + HDR + MINIALLOC
    {
      hide Links, Kept, Live, HeapLive.Over, Rounded, Heap.FirstFit;
      var sz := Rounded(MINIALLOC, request);
      if sz < available {
        var h, room; ghost var k;
        h, room, k := FindFit(sz);
        if room >= sz {
          FirstIs(request, k);
          FreeAt(k);
          ghost var i := BlockAt(h);
          if room >= sz + HDR + MINIALLOC {
            TakeSplit(h, sz, k);
          } else {
            TakeWhole(h, room, k);
          }
          return h + HDR;
        }
        NoneIsFree(request);
      }
      ptr := NULL;
    }

    /** No free block has room for `sz` bytes. */
    ghost predicate NoFit(sz: nat)
      reads this
    {
      forall j :: 0 <= j < |frees| ==> frees[j] in ring && Room(frees[j]) < sz
    }

    /** No free block has `n` bytes. */
    ghost predicate NoBlock(n: int)
      reads this
    {
      forall x :: x in ring && x !in used ==> NextOf(ring, x) - x - HDR < n
    }

    /** All blocks have whole words, so that rounding a request up to words decides nothing. */
    lemma WholeWords(h: int)
      requires Valid() && h in ring && h != size - HDR
      ensures Room(h) % 4 == 0
    {
      hide Links, Kept, HeapLive.Over, Live, NextOf;
      var i := BlockAt(h);
      Difference(ring[i + 1], h);
    }

    /** So a request and its rounded size find the same blocks. */
    lemma SameBlocks(n: nat)
      requires Valid() && NoBlock(Rounded(MINIALLOC, n))
      ensures NoBlock(Max(n, MINIALLOC))
    {
      hide Links, FreeSum, NextOf, Rounded;
      forall x | x in ring && x !in used
        ensures Room(x) < Max(n, MINIALLOC)
      {
        assert Room(x) < Rounded(MINIALLOC, n);
        WholeWords(x);
        RoundedRoom(n, Room(x));
      }
    }

    lemma NoneIsFree(n: nat)
      requires Valid() && NoFit(Rounded(MINIALLOC, n))
      ensures NoBlock(Max(n, MINIALLOC))
    {
      hide Links, FreeSum, NextOf, Rounded;
      forall x | x in ring && x !in used
        ensures Room(x) < Max(n, MINIALLOC)
      {
        var k := IndexOf(frees, x);
        FreeAt(k);
        WholeWords(x);
        RoundedRoom(n, Room(x));
      }
    }

    lemma FirstIs(n: nat, k: nat)
      requires Valid() && k < |frees| && frees[k] in ring && Room(frees[k]) >= Rounded(MINIALLOC, n)
      requires forall j :: 0 <= j < k ==> frees[j] in ring && Room(frees[j]) < Rounded(MINIALLOC, n)
      ensures FirstFit(Max(n, MINIALLOC), frees[k])
    {
      hide Links, Kept, HeapLive.Over, Live, NextOf, Rounded;
      forall j | 0 <= j <= k
        ensures frees[j] in ring && frees[j] != size - HDR
      {
        FreeAt(j);
      }
      forall j | 0 <= j <= k
        ensures Room(frees[j]) >= Rounded(MINIALLOC, n) <==> Room(frees[j]) >= Max(n, MINIALLOC)
      {
        WholeWords(frees[j]);
        RoundedRoom(n, Room(frees[j]));
      }
    }

    /** `h` is the first block of the free list with room for `sz` bytes. */
    ghost predicate FirstFit(sz: int, h: int)
      reads this
    {
      exists k :: 0 <= k < |frees| && frees[k] == h && h in ring && Room(h) >= sz
        && forall j :: 0 <= j < k ==> frees[j] in ring && Room(frees[j]) < sz
    }

    // ---- freeing ------------------------------------------------------------------------------

    /** The block `h`, the `i`-th, is free but not yet merged with the one behind it, and if
        `insertHeader` not yet in the free list. */
    ghost predicate Midway(h: int, insertHeader: bool, i: nat)
      reads this, mem
    {
      && Whole() && Linked()
      && i + 1 < |ring| && ring[i] == h && h !in used && h >= 0
      && Books(size - HDR, ring, used, if insertHeader then [h] + frees else frees, available)
      && NearlyApart(ring, used, i)
      && size - available <= maxUsed
    }

    /** The block `h` is merged with its free neighbours. */
    ghost predicate Merged(h: int, insertHeader: bool)
      reads this, mem
    {
      && Whole() && Linked() && h >= 0
      && Kept(size - HDR, ring, used, if insertHeader then [h] + frees else frees, available)
      && size - available <= maxUsed
    }

    /** rt_memheap_free: gives a block back, and merges it with its free neighbours. */
    method Free(ptr: int)
      requires Valid() && (ptr != NULL ==> ptr - HDR in Owned())
      modifies this
      ensures Valid() && Owned() == (if ptr == NULL then old(Owned()) else old(Owned()) - {ptr - HDR})
    {
      hide Links, Kept, Live, Heap.Midway, HeapLive.Over, Tiled;
      if ptr == NULL { return; }
      var h, insertHeader; ghost var i;
      h, insertHeader, i := Release(ptr - HDR);
      MergeRight(h, insertHeader, i);
      if insertHeader {
        HeadNew(size - HDR, ring, used, h, frees, available);
        PushFree(h);
      }
    }

    /** Marks block `h0` free and merges it into the block before it when that is free. Answers the
        block it now belongs to, and whether that one has still to be put into the free list. */
    method Release(h0: int) returns (h: int, insertHeader: bool, ghost i: nat)
      requires Valid() && h0 in used && h0 != size - HDR
      modifies this`used, this`available, this`next, this`prev, this`ring
      ensures Midway(h, insertHeader, i) && Owned() == old(Owned()) - {h0}
    {
      hide Links, NearlyApart, NoTwoFree, Live, FreeSum, Tiled, Dropped;
      i := BlockAt(h0);
      ghost var r, u, a, end := ring, used, available, size - HDR;
      PrevAt(i);
      h, insertHeader := h0, true;
      Unmarked(end, r, u, frees, a, mem[..size], i);
      used := used - {h0};
      available := available + (next[h0] - h0 - HDR);
      var p := prev[h0];
      if p !in used {
        LeftMerged(end, r, u, frees, a, mem[..size], i);
        DroppedAt(r, i);
        available := available + HDR;
        DropBlock(h0, i);
        h, insertHeader, i := p, false, i - 1;
      }
    }

    /** The `prev` field of the `i`-th block. */
    lemma PrevAt(i: nat)
      requires Valid() && i + 1 < |ring|
      ensures ring[i] in prev && prev[ring[i]] == if i > 0 then ring[i - 1] else size - HDR
      ensures prev[ring[i]] != ring[i]
      ensures i > 0 ==> ring[i - 1] >= 0
    {
      hide Links, FreeSum;
      LinksOf(next, prev, ring, i);
      TiledDistinct(HDR, MINIALLOC, size - HDR, ring);
    }

    /** Merges the free block `h` with the block behind it when that is free. */
    method MergeRight(h: int, insertHeader: bool, ghost i: nat)
      requires Midway(h, insertHeader, i)
      modifies this`available, this`next, this`prev, this`ring, this`nextFree, this`prevFree, this`frees
      ensures Merged(h, insertHeader) && Owned() == old(Owned())
    {
      hide Links, NearlyApart, NoTwoFree, Live, FreeSum, Tiled, Dropped, Distinct, HeapLive.Over, Books;
      LinksOf(next, prev, ring, i);
      ghost var all, end := if insertHeader then [h] + frees else frees, size - HDR;
      var n := next[h];
      if n !in used {
        MergedNext(end, ring, used, h, insertHeader, frees, available, i);
        ghost var k := IndexOf(frees, n);
        ghost var j := if insertHeader then k + 1 else k;
        RightMerged(end, ring, used, all, available, mem[..size], i, j);
        if insertHeader { DropBehind(h, frees, k); }
        available := available + HDR;
        DropBlock(n, i + 1);
        Unlink(n, k);
      } else {
        NearlyDone(ring, used, i);
      }
    }

    // ---- resizing -----------------------------------------------------------------------------

    /** Lets the used block `h` grow to `sz` bytes into the free block `n` behind it. */
    method GrowInPlace(h: int, n: int, sz: nat)
      requires Valid() && h in used && h != size - HDR && n == NextOf(ring, h) && n in ring && n !in used
      requires sz % 4 == 0 && Room(h) < sz && sz + MINIALLOC < Room(n) + Room(h)
      modifies this, mem
      ensures Valid() && available == old(available) - (sz - old(Room(h)))
      ensures h in old(Owned()) && h in Owned() && Owned() == old(Owned())[h := Owned()[h]]
      ensures |Owned()[h]| == sz && SamePrefix(old(Owned())[h], Owned()[h])
    {
      hide Links, FreeSum, Tiled, Live, Inserted, Dropped, NoTwoFree, Books, HeapLive.Over, SamePrefix, SameBut;
      ghost var i := BlockAt(h);
      ghost var k := InFrees(i + 1);
      ghost var r, f, a, m, end := ring, frees, available, mem[..size], size - HDR;
      FreeAbsorbed(end, r, used, f, a, m, i, k);
      DroppedAt(r, i + 1);
      available := available - (sz - (n - h - HDR));
      maxUsed := Max(maxUsed, size - available);
      Unlink(n, k);
      DropBlock(n, i + 1);
      var x := h + HDR + sz;
      CarveIn(x, i, a - (r[i + 2] - r[i + 1] - HDR));
      BorderMoved(end, r, used, f, a, m, mem[..size], i, k, x);
      InsertBlock(h, x, i);
      PushFree(x);
    }

    /** An unused block has its place in the free list, and a used block behind it. */
    lemma InFrees(i: nat) returns (k: nat)
      requires Valid() && i < |ring| && ring[i] !in used
      ensures k < |frees| && frees[k] == ring[i]
      ensures i + 1 < |ring| && NextOf(ring, ring[i]) == ring[i + 1] && ring[i] in ring
      ensures ring[i] in next && next[ring[i]] == ring[i + 1] && ring[i] < ring[i + 1]
    {
      hide Links, FreeSum;
      NotTailer(size - HDR, ring, used, i);
      LinksOf(next, prev, ring, i);
      IndexIs(HDR, MINIALLOC, size - HDR, ring, i);
      k := IndexOf(frees, ring[i]);
    }

    /** Gives the end of the used block `h` back, keeping `sz` bytes. */
    method Shrink(h: int, sz: nat)
      requires Valid() && h in used && h != size - HDR
      requires sz % 4 == 0 && sz >= MINIALLOC && sz + HDR + MINIALLOC <= Room(h)
      modifies this, mem
      ensures Valid()
      ensures h in old(Owned()) && h in Owned() && Owned() == old(Owned())[h := Owned()[h]]
      ensures |Owned()[h]| == sz && SamePrefix(old(Owned())[h], Owned()[h])
    {
      hide Links, FreeSum, Tiled, Live, Inserted, Dropped, NoTwoFree, Books, HeapLive.Over, SamePrefix, SameBut;
      ghost var i := BlockAt(h);
      ghost var k: nat := 0;
      if ring[i + 1] !in used { k := InFrees(i + 1); }
      ghost var r, f, a, m, end := ring, frees, available, mem[..size], size - HDR;
      var x := h + sz + HDR;
      CarveIn(x, i, a);
      EndReturned(end, r, used, f, a, m, mem[..size], i, k, x);
      InsertCut(h, x, i, k);
    }

    /** Links the new free block `x` in behind the used block `h`, and merges it with the block
        behind it when that is free. */
    method InsertCut(h: int, x: int, ghost i: nat, ghost k: nat)
      requires Linked() && i + 1 < |ring| && ring[i] == h && x !in ring && x !in frees && x != FREE_HEADER
      requires ring[i + 1] !in used ==> i + 2 < |ring| && k < |frees| && frees[k] == ring[i + 1]
      modifies this`next, this`prev, this`ring, this`nextFree, this`prevFree, this`frees, this`available
      ensures Linked() && x !in old(ring)
      ensures var next := old(ring)[i + 1];
        && ring == (if next in used then Inserted(old(ring), i, x) else Inserted(Dropped(old(ring), i + 1), i, x))
        && frees == [x] + (if next in used then old(frees) else Dropped(old(frees), k))
        && available == old(available) + (next - x - (if next in used then HDR else 0))
    {
      hide Links, Inserted, Dropped;
      ghost var r := ring;
      InsertBlock(h, x, i);
      LinksOf(next, prev, ring, i + 1);
      InsertedAt(r, i, x);
      var n := next[x];
      if n !in used {
        LinksOf(next, prev, ring, i + 2);
        CutOrder(r, i, x);
        DroppedAt(r, i + 1);
        InsertedAt(Dropped(r, i + 1), i, x);
        OutsideDropped(frees, k, x);
        available := available - (next[n] - n - HDR);
        DropBlock(n, i + 2);
        Unlink(n, k);
      }
      PushFree(x);
      LinksOf(next, prev, ring, i + 1);
      available := available + (next[x] - x - HDR);
    }

    /** Where the bytes of an owned block lie. */
    lemma OwnedAt(h: int) returns (i: nat)
      requires Valid() && h in Owned()
      ensures h in used && h in ring && h != size - HDR && 0 <= h && h + HDR + |Owned()[h]| <= size - HDR
      ensures Room(h) == |Owned()[h]| >= MINIALLOC
      ensures i + 1 < |ring| && ring[i] == h && ring[i + 1] == h + HDR + |Owned()[h]|
      ensures Owned()[h] == mem[..size][h + HDR..ring[i + 1]]
    {
      hide Links, FreeSum, NoTwoFree, Distinct;
      i := BlockAt(h);
      PayloadOf(HDR, MINIALLOC, size - HDR, ring, used, mem[..size], i);
    }

    /** rt_memcpy from one owned block to another. */
    method CopyPayload(p: int, q: int, n: nat)
      requires Valid() && p - HDR in Owned() && q - HDR in Owned() && p != q
      requires n <= |Owned()[p - HDR]| && n <= |Owned()[q - HDR]|
      modifies mem
      ensures Valid() && p - HDR in Owned() && Owned() == old(Owned())[p - HDR := Owned()[p - HDR]]
      ensures |Owned()[p - HDR]| == |old(Owned())[p - HDR]| && Owned()[p - HDR][..n] == old(Owned())[q - HDR][..n]
    {
      hide Links, Kept, HeapLive.Over, Live, Tiled;
      ghost var i := OwnedAt(p - HDR);
      ghost var j := OwnedAt(q - HDR);
      BlocksApart(p - HDR, q - HDR);
      ghost var m := mem[..size];
      MemCopyBelow(mem, size, p, q, n);
      LiveCopied(HDR, MINIALLOC, size - HDR, ring, used, m, mem[..size], i, j, n);
    }

    /** A user of the heap stores a byte in a block of its own. */
    method Poke(ptr: int, i: nat, b: Byte)
      requires Valid() && ptr - HDR in Owned() && i < |Owned()[ptr - HDR]|
      modifies mem
      ensures Valid() && Owned() == old(Owned())[ptr - HDR := WithByte(old(Owned())[ptr - HDR], i, b)]
    {
      hide Links, Kept, HeapLive.Over, Live, Tiled;
      ghost var j := OwnedAt(ptr - HDR);
      ghost var m := mem[..size];
      mem[ptr + i] := b;
      LiveWritten(HDR, MINIALLOC, size - HDR, ring, used, m, mem[..size], j);
      assert mem[..size][ptr..ring[j + 1]] == WithByte(m[ptr..ring[j + 1]], i, b);
    }

    /** No block in use lies at the null pointer. */
    lemma NoNull()
      requires Valid()
      ensures NULL - HDR !in Owned()
    {
      if NULL - HDR in Owned() {
        var i := OwnedAt(NULL - HDR);
      }
    }

    /** The bytes of two owned blocks do not overlap. */
    lemma BlocksApart(g: int, h: int)
      requires Valid() && g in Owned() && h in Owned() && g != h
      ensures g + HDR + |Owned()[g]| <= h || h + HDR + |Owned()[h]| <= g
    {
      hide Links, FreeSum, NoTwoFree, Distinct;
      var i := OwnedAt(g);
      var j := OwnedAt(h);
      LiveDisjoint(HDR, MINIALLOC, size - HDR, ring, g, h);
    }

    /** Moves the bytes of an owned block to a larger new one. */
    method MoveBlock(ptr: int, oldsize: nat, sz: nat) returns (p: int)
      requires Valid() && ptr != NULL && ptr - HDR in Owned()
      requires oldsize == |Owned()[ptr - HDR]| && oldsize < sz == Rounded(MINIALLOC, sz)
      modifies this, mem
      ensures Valid() && (p == NULL ==> Owned() == old(Owned()) && (available <= sz || NoBlock(sz)))
      ensures p != NULL ==> p - HDR !in old(Owned()) && p - HDR in Owned() && sz <= |Owned()[p - HDR]| < sz + HDR + MINIALLOC
      ensures p != NULL ==> Owned() == (old(Owned()) - {ptr - HDR})[p - HDR := Owned()[p - HDR]]
      ensures p != NULL ==> SamePrefix(old(Owned())[ptr - HDR], Owned()[p - HDR])
    {
      hide Links, Kept, HeapLive.Over, Live, Tiled, NoTwoFree, Rounded;
      p := Alloc(sz);
      if p != NULL {
        ghost var b1 := Owned()[p - HDR];
        assert Owned() == old(Owned())[p - HDR := b1];
        CopyPayload(p, ptr, oldsize);
        ghost var b2 := Owned()[p - HDR];
        assert Owned() == old(Owned())[p - HDR := b1][p - HDR := b2];
        MapMoved(old(Owned()), ptr - HDR, p - HDR, b1, b2);
        Free(ptr);
        assert Owned() == (old(Owned()) - {ptr - HDR})[p - HDR := b2];
      }
    }

    /** The block behind `h` is free, and both together have room for `sz` bytes and a smallest block. */
    ghost predicate CanGrow(h: int, sz: nat)
      reads this
    {
      && h in ring && NextOf(ring, h) in ring && NextOf(ring, h) !in used
      && Room(h) < sz && sz + MINIALLOC < Room(NextOf(ring, h)) + Room(h)
    }

    /** rt_memheap_realloc: resizes an owned block, in place when the free block behind it is large
        enough or when it shrinks, and else by moving it. The bytes that both sizes have in common
        stay, and so do all other blocks; nothing changes when it fails. */
    method Realloc(ptr: int, newsize: nat) returns (res: int)
      requires Valid() && (ptr != NULL ==> ptr - HDR in Owned())
      modifies this, mem
      ensures Valid()
      ensures newsize == 0 ==> res == NULL && Owned() == (if ptr == NULL then old(Owned()) else old(Owned()) - {ptr - HDR})
      ensures newsize > 0 && res == NULL ==> Owned() == old(Owned()) && (available <= Rounded(MINIALLOC, newsize) || NoBlock(Max(newsize, MINIALLOC)))
      ensures newsize > 0 && res != NULL ==> res - HDR in Owned()
      ensures newsize > 0 && res != NULL ==>
        Max(newsize, MINIALLOC) <= |Owned()[res - HDR]| < Max(newsize, MINIALLOC) + 4 + HDR + MINIALLOC
      ensures newsize > 0 && res != NULL ==> (ptr != NULL && res == ptr) || res - HDR !in old(Owned())
      ensures newsize > 0 && res != NULL && ptr == NULL ==> Owned() == old(Owned())[res - HDR := Owned()[res - HDR]]
      ensures newsize > 0 && res != NULL && ptr != NULL ==>
        Owned() == (old(Owned()) - {ptr - HDR})[res - HDR := Owned()[res - HDR]]
      ensures newsize > 0 && res != NULL && ptr != NULL ==> SamePrefix(old(Owned())[ptr - HDR], Owned()[res - HDR])
      ensures newsize > 0 && ptr != NULL && Max(newsize, MINIALLOC) <= |old(Owned())[ptr - HDR]| ==> res == ptr
      ensures newsize > 0 && ptr != NULL && old(CanGrow(ptr - HDR, Rounded(MINIALLOC, newsize))) ==>
        res == ptr && |Owned()[res - HDR]| == Rounded(MINIALLOC, newsize)
    {
      hide Links, Kept, HeapLive.Over, Live, Tiled, NoTwoFree, Rounded;
      if newsize == 0 {
        Free(ptr);
        return NULL;
      }
      var sz := Rounded(MINIALLOC, newsize);
      RoundedTwice(newsize);
      RoundedOver(newsize);
      if ptr == NULL {
        res := Alloc(sz);
        if res == NULL && NoBlock(sz) { SameBlocks(newsize); }
        return;
      }
      var h := ptr - HDR;
      ghost var i := OwnedAt(h);
      i := BlockAt(h);
      var oldsize := next[h] - h - HDR;
      if sz > oldsize {
        var n := next[h];
        if n !in used {
          ghost var k := InFrees(i + 1);
          var nextsize := next[n] - n - HDR;
          if nextsize + oldsize > sz + MINIALLOC {
            GrowInPlace(h, n, sz);
            return ptr;
          }
        }
        res := MoveBlock(ptr, oldsize, sz);
        if res == NULL && NoBlock(sz) { SameBlocks(newsize); }
      } else {
        if sz + HDR + MINIALLOC < oldsize {
          Shrink(h, sz);
        }
        res := ptr;
      }
    }
  }
}
