/** The live memory of a heap, as its users see it: which blocks are in use, and their bytes. */
module HeapLive {
  import opened Bytes
  import opened DoubleLinks
  import opened HeapTiling

  /** The blocks tile a memory of `|m|` bytes. */
  ghost predicate Over(hdr: nat, min: nat, end: int, ring: seq<int>, used: set<int>, m: seq<Byte>) {
    Tiled(hdr, min, end, ring) && |m| == end + hdr && forall x :: x in used ==> x in ring
  }

  /** `m` and `m'` agree outside the header at `x`. */
  ghost predicate SameBut(hdr: nat, m: seq<Byte>, m': seq<Byte>, x: int) {
    |m'| == |m| && forall p :: 0 <= p < |m| && !(x <= p < x + hdr) ==> m'[p] == m[p]
  }

  /** The payload size that a heap reserves for a request: the least multiple of 4 that is not below
      the request and the smallest block. */
  function Rounded(min: nat, n: nat): (r: nat)
    ensures min % 4 == 0 ==> r % 4 == 0
    ensures r >= min && r >= n && (r < min + 4 || r < n + 4)
  {
    if AlignUp(n) < min then min else AlignUp(n)
  }

  lemma RoundedLeast(min: nat, n: nat, q: nat)
    requires min % 4 == 0
    ensures q % 4 == 0 && q >= min && q >= n ==> Rounded(min, n) <= q
    ensures n % 4 == 0 && n >= min ==> Rounded(min, n) == n
  {
    hide Rounded;
  }

  ghost function IndexOf(xs: seq<int>, x: int): (i: nat)
    requires x in xs
    ensures i < |xs| && xs[i] == x
  {
    var i :| 0 <= i < |xs| && xs[i] == x;
    i
  }

  /** The block behind block `x`. */
  ghost function NextOf(ring: seq<int>, x: int): int
    requires x in ring
  {
    After(ring, IndexOf(ring, x))
  }

  lemma IndexIs(hdr: nat, min: nat, end: int, ring: seq<int>, i: nat)
    requires Tiled(hdr, min, end, ring) && i < |ring|
    ensures ring[i] in ring && IndexOf(ring, ring[i]) == i && NextOf(ring, ring[i]) == After(ring, i)
    ensures i + 1 < |ring| ==> ring[i] != end && ring[i] + hdr + min <= ring[i + 1] <= end
  {
    TiledDistinct(hdr, min, end, ring);
    if i + 1 < |ring| { TiledOrder(hdr, min, end, ring, i, |ring| - 1); }
    if i + 1 < |ring| { TiledOrder(hdr, min, end, ring, i, i + 1); }
  }

  lemma Bounds(hdr: nat, min: nat, end: int, ring: seq<int>, x: int)
    requires Tiled(hdr, min, end, ring) && x in ring && x != end
    ensures 0 <= x && x + hdr + min <= NextOf(ring, x) <= end
  {
    IndexIs(hdr, min, end, ring, IndexOf(ring, x));
    TiledDistinct(hdr, min, end, ring);
  }

  /** The bytes of block `x`. */
  ghost function Payload(hdr: nat, min: nat, end: int, ring: seq<int>, m: seq<Byte>, x: int): (b: seq<Byte>)
    requires Tiled(hdr, min, end, ring) && |m| == end + hdr && x in ring && x != end
    ensures |b| == NextOf(ring, x) - x - hdr
  {
    Bounds(hdr, min, end, ring, x);
    m[x + hdr..NextOf(ring, x)]
  }

  /** The bytes of every block in use. */
  ghost function Live(hdr: nat, min: nat, end: int, ring: seq<int>, used: set<int>, m: seq<Byte>): (l: map<int, seq<Byte>>)
    requires Over(hdr, min, end, ring, used, m)
    ensures forall x :: x in l <==> x in used && x != end
  {
    map x | x in used && x != end :: Payload(hdr, min, end, ring, m, x)
  }

  lemma PayloadOf(hdr: nat, min: nat, end: int, ring: seq<int>, used: set<int>, m: seq<Byte>, i: nat)
    requires Over(hdr, min, end, ring, used, m) && i + 1 < |ring| && ring[i] in used
    ensures 0 <= ring[i] && ring[i] + hdr <= ring[i + 1] <= end
    ensures ring[i] in Live(hdr, min, end, ring, used, m)
    ensures Live(hdr, min, end, ring, used, m)[ring[i]] == m[ring[i] + hdr..ring[i + 1]]
  {
    hide Tiled;
    IndexIs(hdr, min, end, ring, i);
    Bounds(hdr, min, end, ring, ring[i]);
  }

  /** The bytes of different blocks do not overlap. */
  lemma LiveDisjoint(hdr: nat, min: nat, end: int, ring: seq<int>, x: int, y: int)
    requires Tiled(hdr, min, end, ring) && x in ring && y in ring && x != end && y != end && x != y
    ensures NextOf(ring, x) <= y || NextOf(ring, y) <= x
  {
    hide Tiled;
    var i, j := IndexOf(ring, x), IndexOf(ring, y);
    IndexIs(hdr, min, end, ring, i);
    IndexIs(hdr, min, end, ring, j);
    if i + 1 < j { TiledOrder(hdr, min, end, ring, i + 1, j); }
    if j + 1 < i { TiledOrder(hdr, min, end, ring, j + 1, i); }
  }

  lemma LiveMark(hdr: nat, min: nat, end: int, ring: seq<int>, used: set<int>, m: seq<Byte>, x: int)
    requires Over(hdr, min, end, ring, used, m) && x in ring && x != end
    ensures Live(hdr, min, end, ring, used + {x}, m) == Live(hdr, min, end, ring, used, m)[x := Payload(hdr, min, end, ring, m, x)]
  {
    hide Payload, Tiled;
  }

  lemma LiveUnmark(hdr: nat, min: nat, end: int, ring: seq<int>, used: set<int>, m: seq<Byte>, x: int)
    requires Over(hdr, min, end, ring, used, m)
    ensures Live(hdr, min, end, ring, used - {x}, m) == Live(hdr, min, end, ring, used, m) - {x}
  {
    hide Payload, Tiled;
  }

  lemma NextInserted(hdr: nat, min: nat, end: int, ring: seq<int>, i: nat, x: int, y: int)
    requires i + 1 < |ring| && Tiled(hdr, min, end, ring) && Tiled(hdr, min, end, Inserted(ring, i, x))
    requires y in ring && y != end
    ensures y in Inserted(ring, i, x) && NextOf(Inserted(ring, i, x), y) == if y == ring[i] then x else NextOf(ring, y)
  {
    hide Tiled, NextOf;
    var j, ys := IndexOf(ring, y), Inserted(ring, i, x);
    IndexIs(hdr, min, end, ring, j);
    IndexIs(hdr, min, end, ring, i);
    IndexIs(hdr, min, end, ys, if j <= i then j else j + 1);
  }

  /** Cutting a block at `x` cuts its bytes there. */
  lemma LiveInserted(hdr: nat, min: nat, end: int, ring: seq<int>, used: set<int>, m: seq<Byte>, i: nat, x: int)
    requires Over(hdr, min, end, ring, used, m) && i + 1 < |ring| && x !in used
    requires Over(hdr, min, end, Inserted(ring, i, x), used, m)
    ensures ring[i] + hdr <= x <= end && 0 <= ring[i] && ring[i] != end
    ensures var l := Live(hdr, min, end, ring, used, m);
      Live(hdr, min, end, Inserted(ring, i, x), used, m) == if ring[i] in used then l[ring[i] := m[ring[i] + hdr..x]] else l
  {
    hide Tiled, Inserted;
    Cuts(hdr, min, end, ring, i, x);
    forall y | y in used && y != end
      ensures y in Inserted(ring, i, x)
      ensures Payload(hdr, min, end, Inserted(ring, i, x), m, y) == if y == ring[i] then m[ring[i] + hdr..x] else Payload(hdr, min, end, ring, m, y)
    {
      NextInserted(hdr, min, end, ring, i, x, y);
    }
  }

  lemma Cuts(hdr: nat, min: nat, end: int, ring: seq<int>, i: nat, x: int)
    requires i + 1 < |ring| && Tiled(hdr, min, end, ring) && Tiled(hdr, min, end, Inserted(ring, i, x))
    ensures ring[i] + hdr <= x <= end && 0 <= ring[i] && ring[i] != end
  {
    TiledDistinct(hdr, min, end, ring);
    TiledDistinct(hdr, min, end, Inserted(ring, i, x));
    IndexIs(hdr, min, end, Inserted(ring, i, x), i);
    IndexIs(hdr, min, end, Inserted(ring, i, x), i + 1);
  }

  /** Merging a free block into the one before it appends to the bytes of that one. */
  lemma LiveDropped(hdr: nat, min: nat, end: int, ring: seq<int>, used: set<int>, m: seq<Byte>, i: nat)
    requires Over(hdr, min, end, ring, used, m) && 0 < i < |ring| - 1 && ring[i] !in used
    requires Over(hdr, min, end, Dropped(ring, i), used, m)
    ensures 0 <= ring[i - 1] && ring[i - 1] + hdr <= ring[i] <= ring[i + 1] <= end && ring[i - 1] != end
    ensures var l := Live(hdr, min, end, ring, used, m);
      Live(hdr, min, end, Dropped(ring, i), used, m) ==
        if ring[i - 1] in used then l[ring[i - 1] := m[ring[i - 1] + hdr..ring[i + 1]]] else l
  {
    hide Tiled, Dropped, After;
    var ys := Dropped(ring, i);
    IndexIs(hdr, min, end, ring, i - 1);
    IndexIs(hdr, min, end, ring, i);
    Bounds(hdr, min, end, ring, ring[i - 1]);
    forall y | y in used && y != end
      ensures y in ys
      ensures Payload(hdr, min, end, ys, m, y) == if y == ring[i - 1] then m[ring[i - 1] + hdr..ring[i + 1]] else Payload(hdr, min, end, ring, m, y)
    {
      NextDropped(hdr, min, end, ring, i, y);
    }
  }

  lemma NextDropped(hdr: nat, min: nat, end: int, ring: seq<int>, i: nat, y: int)
    requires 0 < i < |ring| - 1 && Tiled(hdr, min, end, ring) && Tiled(hdr, min, end, Dropped(ring, i))
    requires y in ring && y != end && y != ring[i]
    ensures y in Dropped(ring, i) && NextOf(Dropped(ring, i), y) == if y == ring[i - 1] then ring[i + 1] else NextOf(ring, y)
  {
    hide Tiled;
    var j, ys := IndexOf(ring, y), Dropped(ring, i);
    IndexIs(hdr, min, end, ring, j);
    IndexIs(hdr, min, end, ring, i - 1);
    IndexIs(hdr, min, end, ys, if j < i then j else j - 1);
  }

  /** Changing bytes inside the payload of one block changes no other block's bytes. */
  lemma LiveWritten(hdr: nat, min: nat, end: int, ring: seq<int>, used: set<int>, m: seq<Byte>, m': seq<Byte>, i: nat)
    requires Over(hdr, min, end, ring, used, m) && |m'| == |m| && i + 1 < |ring|
    requires forall p :: 0 <= p < |m| && !(ring[i] + hdr <= p < ring[i + 1]) ==> m'[p] == m[p]
    ensures 0 <= ring[i] && ring[i] + hdr <= ring[i + 1] <= end && ring[i] != end
    ensures Over(hdr, min, end, ring, used, m')
    ensures var l := Live(hdr, min, end, ring, used, m);
      Live(hdr, min, end, ring, used, m') == if ring[i] in used then l[ring[i] := m'[ring[i] + hdr..ring[i + 1]]] else l
  {
    hide Tiled;
    IndexIs(hdr, min, end, ring, i);
    Bounds(hdr, min, end, ring, ring[i]);
    forall y | y in used && y != end && y != ring[i]
      ensures Payload(hdr, min, end, ring, m', y) == Payload(hdr, min, end, ring, m, y)
    {
      LiveDisjoint(hdr, min, end, ring, y, ring[i]);
      Bounds(hdr, min, end, ring, y);
    }
  }

  /** The first `n` bytes of block `j` are copied to block `i`. */
  lemma LiveCopied(hdr: nat, min: nat, end: int, ring: seq<int>, used: set<int>, m: seq<Byte>, m': seq<Byte>, i: nat, j: nat, n: nat)
    requires Over(hdr, min, end, ring, used, m) && |m'| == |m| && i + 1 < |ring| && j + 1 < |ring|
    requires ring[i] in used && ring[j] in used && n <= ring[i + 1] - ring[i] - hdr && n <= ring[j + 1] - ring[j] - hdr
    requires 0 <= ring[i] && 0 <= ring[j] && ring[i] + hdr + n <= |m| && ring[j] + hdr + n <= |m|
    requires m'[ring[i] + hdr..ring[i] + hdr + n] == m[ring[j] + hdr..ring[j] + hdr + n]
    requires forall p :: 0 <= p < |m| && !(ring[i] + hdr <= p < ring[i] + hdr + n) ==> m'[p] == m[p]
    ensures Over(hdr, min, end, ring, used, m')
    ensures var l, l' := Live(hdr, min, end, ring, used, m), Live(hdr, min, end, ring, used, m');
      && ring[i] in l && ring[i] in l' && ring[j] in l && l' == l[ring[i] := l'[ring[i]]]
      && n <= |l'[ring[i]]| == |l[ring[i]]| && n <= |l[ring[j]]| && l'[ring[i]][..n] == l[ring[j]][..n]
  {
    hide Tiled, Live;
    LiveWritten(hdr, min, end, ring, used, m, m', i);
    PayloadOf(hdr, min, end, ring, used, m, i);
    PayloadOf(hdr, min, end, ring, used, m, j);
    PayloadOf(hdr, min, end, ring, used, m', i);
    Front(m, ring[j] + hdr, ring[j + 1], n);
    Front(m', ring[i] + hdr, ring[i + 1], n);
  }

  lemma MapMoved(l: map<int, seq<Byte>>, h: int, h': int, b: seq<Byte>, b': seq<Byte>)
    requires h != h'
    ensures l[h' := b][h' := b'] - {h} == (l - {h})[h' := b']
  {
  }
}
