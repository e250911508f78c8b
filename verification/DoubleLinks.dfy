/** Circular doubly linked lists whose nodes are addresses and whose two link fields are maps from
    addresses to addresses. */
module DoubleLinks {

  ghost predicate Distinct(xs: seq<int>) {
    forall i, j :: 0 <= i < j < |xs| ==> xs[i] != xs[j]
  }

  /** The neighbours of the `i`-th node in the circle. */
  function After(xs: seq<int>, i: nat): int
    requires i < |xs|
  {
    if i + 1 < |xs| then xs[i + 1] else xs[0]
  }

  function Before(xs: seq<int>, i: nat): int
    requires i < |xs|
  {
    if i > 0 then xs[i - 1] else xs[|xs| - 1]
  }

  /** The links of the `i`-th node lead to its neighbours. */
  ghost predicate LinkedAt(fwd: map<int, int>, bwd: map<int, int>, xs: seq<int>, i: nat)
    requires i < |xs|
  {
    xs[i] in fwd && xs[i] in bwd && fwd[xs[i]] == After(xs, i) && bwd[xs[i]] == Before(xs, i)
  }

  /** Following `fwd` from `xs[0]` visits `xs` in order and comes back; `bwd` undoes every step. */
  ghost predicate Links(fwd: map<int, int>, bwd: map<int, int>, xs: seq<int>) {
    && |xs| >= 1 && Distinct(xs)
    && forall i :: 0 <= i < |xs| ==> LinkedAt(fwd, bwd, xs, i)
  }

  /** The list with `x` put behind its `i`-th node. */
  function Inserted(xs: seq<int>, i: nat, x: int): (ys: seq<int>)
    requires i < |xs|
    ensures |ys| == |xs| + 1
    ensures forall j :: 0 <= j < |ys| ==> ys[j] == if j <= i then xs[j] else if j == i + 1 then x else xs[j - 1]
  {
    xs[..i + 1] + [x] + xs[i + 1..]
  }

  /** The list without its `i`-th node. */
  function Dropped(xs: seq<int>, i: nat): (ys: seq<int>)
    requires i < |xs|
    ensures |ys| == |xs| - 1
    ensures forall j :: 0 <= j < |ys| ==> ys[j] == if j < i then xs[j] else xs[j + 1]
  {
    xs[..i] + xs[i + 1..]
  }

  lemma LinksOf(fwd: map<int, int>, bwd: map<int, int>, xs: seq<int>, i: nat)
    requires Links(fwd, bwd, xs) && i < |xs|
    ensures xs[i] in fwd && xs[i] in bwd && fwd[xs[i]] == After(xs, i) && bwd[xs[i]] == Before(xs, i)
  {
    assert LinkedAt(fwd, bwd, xs, i);
  }

  lemma InsertAt(fwd: map<int, int>, bwd: map<int, int>, xs: seq<int>, i: nat, x: int, j: nat)
    requires Links(fwd, bwd, xs) && i < |xs| && x !in xs && j <= |xs|
    ensures LinkedAt(fwd[x := After(xs, i)][xs[i] := x], bwd[x := xs[i]][After(xs, i) := x], Inserted(xs, i, x), j)
  {
    var l := if j <= i then j else if j == i + 1 then i else j - 1;
    LinksOf(fwd, bwd, xs, i);
    LinksOf(fwd, bwd, xs, l);
  }

  /** Four link stores put a new node behind node `i`. */
  lemma Insert(fwd: map<int, int>, bwd: map<int, int>, xs: seq<int>, i: nat, x: int)
    requires Links(fwd, bwd, xs) && i < |xs| && x !in xs
    ensures xs[i] in fwd && fwd[xs[i]] == After(xs, i)
    ensures Links(fwd[x := fwd[xs[i]]][xs[i] := x], bwd[x := xs[i]][fwd[xs[i]] := x], Inserted(xs, i, x))
  {
    LinksOf(fwd, bwd, xs, i);
    var f, b, ys := fwd[x := fwd[xs[i]]][xs[i] := x], bwd[x := xs[i]][fwd[xs[i]] := x], Inserted(xs, i, x);
    forall j | 0 <= j < |ys|
      ensures LinkedAt(f, b, ys, j)
    {
      InsertAt(fwd, bwd, xs, i, x, j);
    }
  }

  lemma DropAt(fwd: map<int, int>, bwd: map<int, int>, xs: seq<int>, i: nat, j: nat)
    requires Links(fwd, bwd, xs) && 0 < i < |xs| && j < |xs| - 1
    ensures LinkedAt(fwd[xs[i - 1] := After(xs, i)], bwd[After(xs, i) := xs[i - 1]], Dropped(xs, i), j)
  {
    LinksOf(fwd, bwd, xs, if j < i then j else j + 1);
  }

  /** Two link stores take node `i` out. */
  lemma Drop(fwd: map<int, int>, bwd: map<int, int>, xs: seq<int>, i: nat)
    requires Links(fwd, bwd, xs) && 0 < i < |xs|
    ensures xs[i] in fwd && xs[i] in bwd && bwd[xs[i]] == xs[i - 1] && fwd[xs[i]] == After(xs, i)
    ensures Links(fwd[bwd[xs[i]] := fwd[xs[i]]], bwd[fwd[xs[i]] := bwd[xs[i]]], Dropped(xs, i))
  {
    LinksOf(fwd, bwd, xs, i);
    var f, b, ys := fwd[bwd[xs[i]] := fwd[xs[i]]], bwd[fwd[xs[i]] := bwd[xs[i]]], Dropped(xs, i);
    forall j | 0 <= j < |ys|
      ensures LinkedAt(f, b, ys, j)
    {
      DropAt(fwd, bwd, xs, i, j);
    }
  }

  /** Only the links of the nodes matter. */
  lemma LinksKept(fwd: map<int, int>, bwd: map<int, int>, fwd': map<int, int>, bwd': map<int, int>, xs: seq<int>)
    requires Links(fwd, bwd, xs)
    requires forall x :: x in xs && x in fwd && x in bwd ==>
      x in fwd' && x in bwd' && fwd'[x] == fwd[x] && bwd'[x] == bwd[x]
    ensures Links(fwd', bwd', xs)
  {
    forall i | 0 <= i < |xs|
      ensures LinkedAt(fwd', bwd', xs, i)
    {
      assert LinkedAt(fwd, bwd, xs, i) && xs[i] in xs;
    }
  }

  /** The fields of those nodes that a header of `hdr` bytes at `x` does not overlap. */
  function Surviving(f: map<int, int>, hdr: nat, x: int): map<int, int> {
    map y | y in f && (y + hdr <= x || x + hdr <= y) :: f[y]
  }

  lemma SurvivingLinks(fwd: map<int, int>, bwd: map<int, int>, xs: seq<int>, hdr: nat, x: int)
    requires Links(fwd, bwd, xs) && forall y :: y in xs ==> y + hdr <= x || x + hdr <= y
    ensures Links(Surviving(fwd, hdr, x), Surviving(bwd, hdr, x), xs)
  {
    LinksKept(fwd, bwd, Surviving(fwd, hdr, x), Surviving(bwd, hdr, x), xs);
  }

  // ---- members ------------------------------------------------------------------------------------

  lemma InInserted(xs: seq<int>, i: nat, x: int)
    requires i < |xs|
    ensures forall y :: y in Inserted(xs, i, x) <==> y in xs || y == x
  {
    var ys := Inserted(xs, i, x);
    assert ys[i + 1] == x;
    forall y | y in xs
      ensures y in ys
    {
      var j :| 0 <= j < |xs| && xs[j] == y;
      assert ys[if j <= i then j else j + 1] == y;
    }
  }

  lemma InDropped(xs: seq<int>, k: nat)
    requires k < |xs|
    ensures forall y :: y in xs && y != xs[k] ==> y in Dropped(xs, k)
    ensures Distinct(xs) ==> Distinct(Dropped(xs, k))
    ensures Distinct(xs) ==> forall y :: y in Dropped(xs, k) <==> y in xs && y != xs[k]
  {
    var ys := Dropped(xs, k);
    forall y | y in xs && y != xs[k]
      ensures y in ys
    {
      var j :| 0 <= j < |xs| && xs[j] == y;
      assert ys[if j < k then j else j - 1] == y;
    }
  }
}
