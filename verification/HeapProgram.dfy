/** What a program that uses a heap sees: a table of byte sequences that it has asked for, independent
    of each other. */
module HeapProgram {
  import opened Bytes

  const NULL: int := 0

  datatype Op = Alloc(n: nat) | Free(k: nat) | Realloc(k: nat, n: nat) | Store(k: nat, i: nat, b: Byte)

  datatype Block = Gone | Block(bytes: seq<Byte>)

  /** Where the blocks of the table are: each one that is not gone has a block of the heap of its own,
      at least as large, and nothing else is in use. */
  ghost predicate Holds(hdr: nat, owned: map<int, seq<Byte>>, ptrs: seq<int>, blocks: seq<Block>) {
    && |ptrs| == |blocks| && AllHold(hdr, owned, ptrs, blocks)
    && Apart(ptrs) && Covered(hdr, owned, ptrs)
  }

  ghost predicate AllHold(hdr: nat, owned: map<int, seq<Byte>>, ptrs: seq<int>, blocks: seq<Block>)
    requires |ptrs| == |blocks|
  {
    forall k :: 0 <= k < |ptrs| ==> HoldsAt(hdr, owned, ptrs[k], blocks[k])
  }

  ghost predicate Apart(ptrs: seq<int>) {
    forall j, k :: 0 <= j < k < |ptrs| && ptrs[j] != NULL ==> ptrs[j] != ptrs[k]
  }

  ghost predicate Covered(hdr: nat, owned: map<int, seq<Byte>>, ptrs: seq<int>) {
    forall x :: x in owned ==> Pointed(ptrs, x + hdr)
  }

  ghost predicate Pointed(ptrs: seq<int>, p: int) {
    exists k :: 0 <= k < |ptrs| && ptrs[k] == p
  }

  ghost predicate HoldsAt(hdr: nat, owned: map<int, seq<Byte>>, ptr: int, block: Block) {
    match block
    case Gone => ptr == NULL
    case Block(bytes) => ptr != NULL && ptr - hdr in owned && bytes <= owned[ptr - hdr]
  }

  /** A heap block at `p` is new or has been replaced. */
  ghost predicate Changed(hdr: nat, owned: map<int, seq<Byte>>, owned': map<int, seq<Byte>>, ptr: int, ptr': int) {
    && (ptr != NULL ==> ptr - hdr in owned)
    && (ptr' != NULL ==> ptr' - hdr in owned' && (ptr' == ptr || ptr' - hdr !in owned))
    && (forall x :: x in owned' <==> (x in owned && x + hdr != ptr) || (x + hdr == ptr' && ptr' != NULL))
    && (forall x :: x in owned && x + hdr != ptr ==> x in owned' && owned'[x] == owned[x])
  }

  /** One entry of the table changes, and with it one block of the heap. */
  lemma HoldsChanged(hdr: nat, owned: map<int, seq<Byte>>, owned': map<int, seq<Byte>>,
                     ptrs: seq<int>, blocks: seq<Block>, k: nat, ptr: int, block: Block)
    requires Holds(hdr, owned, ptrs, blocks) && k < |ptrs| && NULL - hdr !in owned
    requires Changed(hdr, owned, owned', ptrs[k], ptr) && HoldsAt(hdr, owned', ptr, block)
    ensures Holds(hdr, owned', ptrs[k := ptr], blocks[k := block])
  {
    hide HoldsAt, Changed, Covered;
    var ps, bs := ptrs[k := ptr], blocks[k := block];
    forall j | 0 <= j < |ps|
      ensures HoldsAt(hdr, owned', ps[j], bs[j]) && (j != k && ps[j] != NULL ==> ps[j] != ptr)
    {
      if j != k { OthersHold(hdr, owned, owned', ptrs, blocks, k, ptr, j); }
    }
    StillCovered(hdr, owned, owned', ptrs, k, ptr);
  }

  lemma OthersHold(hdr: nat, owned: map<int, seq<Byte>>, owned': map<int, seq<Byte>>,
                   ptrs: seq<int>, blocks: seq<Block>, k: nat, ptr: int, j: nat)
    requires |ptrs| == |blocks| && AllHold(hdr, owned, ptrs, blocks) && Apart(ptrs) && NULL - hdr !in owned
    requires k < |ptrs| && j < |ptrs| && j != k && Changed(hdr, owned, owned', ptrs[k], ptr)
    ensures HoldsAt(hdr, owned', ptrs[j], blocks[j]) && (ptrs[j] != NULL ==> ptrs[j] != ptr)
  {
    assert HoldsAt(hdr, owned, ptrs[j], blocks[j]);
    if ptrs[j] != NULL {
      assert ptrs[j] != ptrs[k];
      var x := ptrs[j] - hdr;
      assert x in owned && x + hdr != ptrs[k];
    }
  }

  lemma StillCovered(hdr: nat, owned: map<int, seq<Byte>>, owned': map<int, seq<Byte>>,
                     ptrs: seq<int>, k: nat, ptr: int)
    requires Covered(hdr, owned, ptrs) && k < |ptrs| && Changed(hdr, owned, owned', ptrs[k], ptr)
    ensures Covered(hdr, owned', ptrs[k := ptr])
  {
    hide Pointed;
    forall x | x in owned'
      ensures Pointed(ptrs[k := ptr], x + hdr)
    {
      StillPointed(hdr, owned, owned', ptrs, k, ptr, x);
    }
  }

  lemma StillPointed(hdr: nat, owned: map<int, seq<Byte>>, owned': map<int, seq<Byte>>,
                     ptrs: seq<int>, k: nat, ptr: int, x: int)
    requires Covered(hdr, owned, ptrs)
    requires k < |ptrs| && Changed(hdr, owned, owned', ptrs[k], ptr) && x in owned'
    ensures Pointed(ptrs[k := ptr], x + hdr)
  {
    var ps := ptrs[k := ptr];
    if x in owned && x + hdr != ptrs[k] {
      assert Pointed(ptrs, x + hdr);
      var j :| 0 <= j < |ptrs| && ptrs[j] == x + hdr;
      assert ps[j] == x + hdr;
    } else {
      assert ps[k] == x + hdr;
    }
  }

  /** A new entry of the table is empty at first. */
  lemma HoldsMore(hdr: nat, owned: map<int, seq<Byte>>, ptrs: seq<int>, blocks: seq<Block>)
    requires Holds(hdr, owned, ptrs, blocks)
    ensures |ptrs| == |blocks| && Holds(hdr, owned, ptrs + [NULL], blocks + [Gone])
  {
    hide Covered, Pointed;
    var ps, bs := ptrs + [NULL], blocks + [Gone];
    assert HoldsAt(hdr, owned, NULL, Gone);
    hide HoldsAt;
    forall j | 0 <= j < |ps|
      ensures HoldsAt(hdr, owned, ps[j], bs[j])
    {
      if j < |ptrs| { assert HoldsAt(hdr, owned, ptrs[j], blocks[j]); }
    }
    CoveredMore(hdr, owned, ptrs, NULL);
  }

  lemma CoveredMore(hdr: nat, owned: map<int, seq<Byte>>, ptrs: seq<int>, p: int)
    requires Covered(hdr, owned, ptrs)
    ensures Covered(hdr, owned, ptrs + [p])
  {
    forall x | x in owned
      ensures Pointed(ptrs + [p], x + hdr)
    {
      assert Pointed(ptrs, x + hdr);
      var j :| 0 <= j < |ptrs| && ptrs[j] == x + hdr;
      assert (ptrs + [p])[j] == x + hdr;
    }
  }

  lemma WhereIs(hdr: nat, owned: map<int, seq<Byte>>, ptrs: seq<int>, x: int) returns (k: nat)
    requires Covered(hdr, owned, ptrs) && x in owned
    ensures k < |ptrs| && ptrs[k] == x + hdr
  {
    assert Pointed(ptrs, x + hdr);
    k :| 0 <= k < |ptrs| && ptrs[k] == x + hdr;
  }

  /** What is in use belongs to a block of the table. */
  lemma Occupied(hdr: nat, owned: map<int, seq<Byte>>, ptrs: seq<int>, blocks: seq<Block>, x: int) returns (k: nat)
    requires Holds(hdr, owned, ptrs, blocks) && NULL - hdr !in owned && x in owned
    ensures k < |blocks| && blocks[k].Block? && ptrs[k] == x + hdr && blocks[k].bytes <= owned[x]
  {
    k := WhereIs(hdr, owned, ptrs, x);
    hide Covered, Pointed, Apart;
    assert HoldsAt(hdr, owned, ptrs[k], blocks[k]);
  }

  /** When everything is gone, nothing is in use. */
  lemma NothingLeft(hdr: nat, owned: map<int, seq<Byte>>, ptrs: seq<int>, blocks: seq<Block>)
    requires Holds(hdr, owned, ptrs, blocks) && NULL - hdr !in owned
    requires forall k :: 0 <= k < |blocks| ==> blocks[k].Gone?
    ensures owned == map[]
  {
    forall x
      ensures x !in owned
    {
      if x in owned {
        var k := Occupied(hdr, owned, ptrs, blocks, x);
      }
    }
  }

  lemma CommonPrefix(x: seq<Byte>, a: seq<Byte>, b: seq<Byte>, n: nat)
    requires x <= a && SamePrefix(a, b) && n <= |b|
    ensures SamePrefix(x, b[..n])
  {
    if |x| <= n {
      assert x == b[..n][..|x|];
    } else {
      assert b[..n] == x[..n];
    }
  }

  lemma CommonFront(x: seq<Byte>, a: seq<Byte>, b: seq<Byte>, size: nat, n: nat)
    requires x <= a && n <= size && n <= |b|
    requires var k := if |a| < size then |a| else size;
      k <= |b| && b[..k] == a[..k]
    ensures SamePrefix(x, b[..n])
  {
    var k := if |a| < size then |a| else size;
    if |x| <= n {
      assert x == a[..k][..|x|] == b[..k][..|x|] == b[..n][..|x|];
    } else {
      assert b[..n] == b[..k][..n] == a[..k][..n] == x[..n];
    }
  }

  lemma EntryHolds(hdr: nat, owned: map<int, seq<Byte>>, ptrs: seq<int>, blocks: seq<Block>, k: nat)
    requires Holds(hdr, owned, ptrs, blocks) && k < |ptrs|
    ensures |blocks| == |ptrs| && HoldsAt(hdr, owned, ptrs[k], blocks[k]) && (blocks[k].Gone? <==> ptrs[k] == NULL)
  {
  }

  lemma HoldsNothing(hdr: nat)
    ensures Holds(hdr, map[], [], [])
  {
  }

  /** What the program knows of the sizes. */
  ghost predicate Sizes(sizes: seq<nat>, blocks: seq<Block>) {
    |sizes| == |blocks| && forall k :: 0 <= k < |sizes| && blocks[k].Block? ==> sizes[k] == |blocks[k].bytes|
  }

  // ---- what the operations mean to the program ------------------------------------------------------------

  /** `y` is a new block of `n` bytes, or the allocation has failed. */
  ghost predicate Fresh(n: nat, y: Block) {
    y.Block? ==> |y.bytes| == n
  }

  /** `y` has `n` bytes, those that both sizes have in common being the same. */
  ghost predicate Resized(n: nat, x: Block, y: Block) {
    x.Block? && y.Block? && |y.bytes| == n && SamePrefix(x.bytes, y.bytes)
  }

  /** What an operation does to the table. A resize to nothing frees the block if `freeing`; otherwise
      it is a resize like others, and may leave a block without a byte. */
  ghost predicate Does(freeing: bool, op: Op, a: seq<Block>, b: seq<Block>) {
    match op
    case Alloc(n) => |b| == |a| + 1 && b[..|a|] == a && Fresh(n, b[|a|])
    case Free(k) => if k < |a| then b == a[k := Gone] else b == a
    case Realloc(k, n) =>
      if k >= |a| then b == a
      else if n == 0 && freeing then b == a[k := Gone]
      else |b| == |a| && b == a[k := b[k]] && if a[k].Gone? then Fresh(n, b[k]) else b[k] == a[k] || Resized(n, a[k], b[k])
    case Store(k, i, v) =>
      if k < |a| && a[k].Block? && i < |a[k].bytes| then b == a[k := Block(WithByte(a[k].bytes, i, v))] else b == a
  }
}
