/** Cluster chains in a table of FAT entries, and what stretching, removing and truncating one
    chain does to a family of chains. Entry value 0 marks a free cluster, a value of at least
    `|t|` ends a chain. */
module FatChain {

  /** `cs` lists a chain of `t` from its first to its last cluster. */
  ghost predicate IsChain(t: seq<nat>, cs: seq<nat>) {
    && |cs| >= 1
    && (forall i :: 0 <= i < |cs| ==> 2 <= cs[i] < |t|)
    && (forall i, j :: 0 <= i < j < |cs| ==> cs[i] != cs[j])
    && (forall i :: 0 <= i < |cs| - 1 ==> t[cs[i]] == cs[i + 1])
    && t[cs[|cs| - 1]] >= |t|
  }

  /** Every member of `fam` is a chain and no two of them share a cluster. */
  ghost predicate Family(t: seq<nat>, fam: seq<seq<nat>>) {
    && (forall k :: 0 <= k < |fam| ==> IsChain(t, fam[k]))
    && (forall k, l :: 0 <= k < l < |fam| ==> Disjoint(fam[k], fam[l]))
  }

  ghost predicate Disjoint(a: seq<nat>, b: seq<nat>) {
    forall c :: c in a ==> c !in b
  }

  /** The number of zero entries. */
  function CountZero(s: seq<nat>): (n: nat)
    ensures n <= |s|
  {
    if s == [] then 0 else CountZero(s[..|s| - 1]) + if s[|s| - 1] == 0 then 1 else 0
  }

  /** The number of free clusters. */
  function Free(t: seq<nat>): nat
    requires |t| >= 2
  {
    CountZero(t[2..])
  }

  lemma {:induction false} CountUpdate(s: seq<nat>, i: nat, v: nat)
    requires i < |s|
    ensures CountZero(s[i := v]) == CountZero(s) - (if s[i] == 0 then 1 else 0) + (if v == 0 then 1 else 0)
  {
    var m := |s| - 1;
    if i < m {
      assert s[i := v][..m] == s[..m][i := v];
      CountUpdate(s[..m], i, v);
    } else {
      assert s[i := v][..m] == s[..m];
    }
  }

  lemma FreeUpdate(t: seq<nat>, c: nat, v: nat)
    requires 2 <= c < |t|
    ensures Free(t[c := v]) == Free(t) - (if t[c] == 0 then 1 else 0) + (if v == 0 then 1 else 0)
  {
    assert t[c := v][2..] == t[2..][c - 2 := v];
    CountUpdate(t[2..], c - 2, v);
  }

  lemma {:induction false} CountSplit(s: seq<nat>, k: nat)
    requires k <= |s|
    ensures CountZero(s) == CountZero(s[..k]) + CountZero(s[k..])
  {
    var m := |s| - 1;
    if k == |s| {
      assert s[..k] == s;
    } else {
      CountSplit(s[..m], k);
      assert s[..m][..k] == s[..k] && s[k..][..m - k] == s[..m][k..];
    }
  }

  /** Counting one entry more. */
  lemma CountNext(s: seq<nat>, from: nat, c: nat)
    requires from <= c < |s|
    ensures CountZero(s[from..c + 1]) == CountZero(s[from..c]) + if s[c] == 0 then 1 else 0
  {
    assert s[from..c + 1][..c - from] == s[from..c];
  }

  lemma CountNone(s: seq<nat>)
    ensures CountZero(s[0..0]) == 0
  {
  }

  /** No zero entry, no free cluster. */
  lemma {:induction false} NoZero(s: seq<nat>)
    ensures CountZero(s) == 0 <==> forall i :: 0 <= i < |s| ==> s[i] != 0
  {
    if s != [] {
      NoZero(s[..|s| - 1]);
    }
  }

  lemma NoFree(t: seq<nat>)
    requires |t| >= 2
    ensures Free(t) == 0 <==> forall c :: 2 <= c < |t| ==> t[c] != 0
  {
    NoZero(t[2..]);
    if Free(t) == 0 {
      forall c | 2 <= c < |t| ensures t[c] != 0 { assert t[2..][c - 2] == t[c]; }
    } else {
      var i :| 0 <= i < |t| - 2 && t[2..][i] == 0;
      assert t[i + 2] == 0;
    }
  }

  // ---- searching --------------------------------------------------------------------------

  /** create_chain looks at the clusters behind `scl` first, then from cluster 2 up to `scl`;
      this is the number of steps to cluster `c`. */
  function ScanDist(n: nat, scl: nat, c: nat): nat
    requires 1 <= scl < n && 2 <= c < n
  {
    if c > scl then c - scl else (n - 1 - scl) + (c - 1)
  }

  /** The scan goes up from behind `scl`, then from cluster 2 on: it meets `c` before `r`. */
  predicate Sooner(scl: nat, c: nat, r: nat) {
    if r > scl then scl < c < r else c > scl || c < r
  }

  /** `r` is the first cluster in scan order that is free or marked invalid. */
  ghost predicate FirstStop(t: seq<nat>, scl: nat, r: nat) {
    && 2 <= r < |t| && t[r] < 2
    && forall c :: 2 <= c < |t| && Sooner(scl, c, r) ==> t[c] >= 2
  }

  lemma SoonerIsNearer(n: nat, scl: nat, c: nat, r: nat)
    requires 1 <= scl < n && 2 <= c < n && 2 <= r < n
    ensures Sooner(scl, c, r) <==> ScanDist(n, scl, c) < ScanDist(n, scl, r)
  {
  }

  /** Cluster number `clst` (0 for none) has no successor yet. */
  predicate NeedsNew(t: seq<nat>, clst: nat) {
    clst == 0 || (2 <= clst < |t| && t[clst] >= |t|)
  }

  /** Where create_chain starts its search: the last allocated cluster when it makes a new
      chain, the end of the chain when it stretches one. */
  function ScanStart(n: nat, lastClust: nat, clst: nat): nat {
    if clst != 0 then clst
    else if lastClust == 0 || lastClust >= n then 1 else lastClust
  }

  /** The table after free cluster `r` has been allocated behind cluster `clst`, or as a new
      chain when `clst` is 0. */
  function Allocated(t: seq<nat>, clst: nat, r: nat, eoc: nat): (t': seq<nat>)
    requires clst < |t| && r < |t|
    ensures |t'| == |t|
  {
    if clst == 0 then t[r := eoc] else Linked(t, clst, r, eoc)
  }

  /** create_chain, asked to go on from `clst`, answered `ncl` and left the table `t'`. When
      the chain already goes on (or `clst` is invalid) nothing changes. Otherwise the answer 0
      means exactly that no cluster is free (and none marked invalid), whatever the hint
      `lastClust`; 1 means that the scan meets an invalid cluster first, and a cluster number that it
      meets this free cluster first, which has been put at the end. */
  ghost predicate Created(t: seq<nat>, lastClust: nat, clst: nat, ncl: nat, t': seq<nat>, eoc: nat) {
    if !NeedsNew(t, clst) then
      t' == t && ncl == if 2 <= clst < |t| && t[clst] >= 2 then t[clst] else 1
    else
      && (ncl == 0 <==> forall c :: 2 <= c < |t| ==> t[c] >= 2)
      && (ncl == 1 ==> exists c: nat :: FirstStop(t, ScanStart(|t|, lastClust, clst), c) && t[c] == 1)
      && (ncl < 2 ==> t' == t)
      && (ncl >= 2 ==>
            && FirstStop(t, ScanStart(|t|, lastClust, clst), ncl) && t[ncl] == 0
            && t' == Allocated(t, clst, ncl, eoc))
  }

  // ---- stretching -------------------------------------------------------------------------

  /** No entry of a chain marks its cluster free or invalid. */
  lemma ChainLink(t: seq<nat>, cs: seq<nat>, i: nat)
    requires IsChain(t, cs) && i < |cs|
    ensures 2 <= cs[i] < |t| && t[cs[i]] >= 2
    ensures t[cs[i]] == if i < |cs| - 1 then cs[i + 1] else t[cs[i]]
    ensures i == |cs| - 1 <==> t[cs[i]] >= |t|
  {
    if i < |cs| - 1 {
      assert t[cs[i]] == cs[i + 1];
    }
  }

  /** A free cluster belongs to no chain. */
  lemma FreeOutside(t: seq<nat>, cs: seq<nat>, r: nat)
    requires IsChain(t, cs) && r < |t| && t[r] == 0
    ensures r !in cs
  {
    if r in cs {
      var i :| 0 <= i < |cs| && cs[i] == r;
      ChainLink(t, cs, i);
    }
  }

  /** Entries outside a chain do not matter to it. */
  lemma ChainKept(t: seq<nat>, t': seq<nat>, cs: seq<nat>)
    requires IsChain(t, cs) && |t'| == |t|
    requires forall c :: c in cs && c < |t| ==> t'[c] == t[c]
    ensures IsChain(t', cs)
  {
    assert forall i :: 0 <= i < |cs| ==> cs[i] in cs;
  }

  /** The table after cluster `r` has become the last one behind cluster `c`. */
  function Linked(t: seq<nat>, c: nat, r: nat, eoc: nat): (t': seq<nat>)
    requires c < |t| && r < |t|
    ensures |t'| == |t|
  {
    t[r := eoc][c := r]
  }

  lemma ChainStretched(t: seq<nat>, cs: seq<nat>, r: nat, eoc: nat)
    requires IsChain(t, cs) && 2 <= r < |t| && t[r] == 0 && eoc >= |t|
    ensures IsChain(Linked(t, cs[|cs| - 1], r, eoc), cs + [r])
  {
    FreeOutside(t, cs, r);
    assert forall i :: 0 <= i < |cs| ==> cs[i] in cs;
  }

  /** Stretching chain `k` of a family by a free cluster: that chain grows by one cluster at
      its end and every other chain stays. */
  lemma FamilyStretched(t: seq<nat>, fam: seq<seq<nat>>, k: nat, r: nat, eoc: nat)
    requires Family(t, fam) && k < |fam| && 2 <= r < |t| && t[r] == 0 && eoc >= |t|
    ensures IsChain(t, fam[k])
    ensures Family(Linked(t, fam[k][|fam[k]| - 1], r, eoc), fam[k := fam[k] + [r]])
  {
    var last := fam[k][|fam[k]| - 1];
    var t' := Linked(t, last, r, eoc);
    var fam' := fam[k := fam[k] + [r]];
    ChainStretched(t, fam[k], r, eoc);
    forall l | 0 <= l < |fam|
      ensures r !in fam[l]
      ensures IsChain(t', fam'[l])
    {
      FreeOutside(t, fam[l], r);
      if l != k {
        assert Disjoint(fam[l], fam[k]) || Disjoint(fam[k], fam[l]);
        assert last in fam[k];
        ChainKept(t, t', fam[l]);
      }
    }
  }

  /** A new chain of one formerly free cluster joins the family. */
  lemma FamilyCreated(t: seq<nat>, fam: seq<seq<nat>>, r: nat, eoc: nat)
    requires Family(t, fam) && 2 <= r < |t| && t[r] == 0 && eoc >= |t|
    ensures Family(t[r := eoc], fam + [[r]])
  {
    forall l | 0 <= l < |fam|
      ensures r !in fam[l]
      ensures IsChain(t[r := eoc], fam[l])
    {
      FreeOutside(t, fam[l], r);
      ChainKept(t, t[r := eoc], fam[l]);
    }
  }

  // ---- removing ---------------------------------------------------------------------------

  /** What remove_chain does to the table, starting at cluster `c`: it zeroes entry after entry
      until it leaves the table (or meets a zero), and fails on the entry value 1. It ends on
      any table, cyclic ones too, because each round zeroes a non-zero entry. */
  function RemoveFrom(t: seq<nat>, c: nat): (r: (seq<nat>, bool))
    requires 2 <= c
    ensures |r.0| == |t|
    decreases |t| - CountZero(t)
  {
    if c >= |t| || t[c] == 0 then (t, true)
    else if t[c] == 1 then (t, false)
    else
      CountUpdate(t, c, 0);
      RemoveFrom(t[c := 0], t[c])
  }

  /** One round of remove_chain. */
  lemma RemoveStep(t: seq<nat>, c: nat)
    requires 2 <= c < |t|
    ensures t[c] == 0 ==> RemoveFrom(t, c) == (t, true)
    ensures t[c] == 1 ==> RemoveFrom(t, c) == (t, false)
    ensures t[c] >= 2 ==> RemoveFrom(t, c) == RemoveFrom(t[c := 0], t[c])
    ensures t[c] >= 2 ==> CountZero(t[c := 0]) == CountZero(t) + 1 <= |t|
    ensures t[c] >= 2 ==> Free(t[c := 0]) == Free(t) + 1 <= |t| - 2
  {
    FreeUpdate(t, c, 0);
    CountUpdate(t, c, 0);
  }

  lemma RemoveDone(t: seq<nat>, c: nat)
    requires 2 <= c && c >= |t|
    ensures RemoveFrom(t, c) == (t, true)
  {
  }

  /** The table with the entries of `xs` zeroed. */
  function Cleared(t: seq<nat>, xs: seq<nat>): (t': seq<nat>)
    ensures |t'| == |t|
    ensures forall c :: 0 <= c < |t| ==> t'[c] == if c in xs then 0 else t[c]
  {
    seq(|t|, c requires 0 <= c < |t| => if c in xs then 0 else t[c])
  }

  /** Removing a chain from its `i`-th cluster on frees exactly the clusters from there on. */
  lemma {:induction false} ChainRemoved(t: seq<nat>, cs: seq<nat>)
    requires IsChain(t, cs)
    ensures RemoveFrom(t, cs[0]) == (Cleared(t, cs), true)
    ensures Free(Cleared(t, cs)) == Free(t) + |cs|
    decreases |cs|
  {
    var c, t1, rest := cs[0], t[cs[0] := 0], cs[1..];
    ChainLink(t, cs, 0);
    FreeUpdate(t, c, 0);
    CountUpdate(t, c, 0);
    if |cs| == 1 {
      assert Cleared(t, cs) == t1;
      assert RemoveFrom(t1, t[c]) == (t1, true);
    } else {
      ChainTail(t, cs);
      ChainRemoved(t1, rest);
      ClearedTail(t, cs);
    }
  }

  lemma ChainTail(t: seq<nat>, cs: seq<nat>)
    requires IsChain(t, cs) && |cs| > 1
    ensures IsChain(t[cs[0] := 0], cs[1..])
  {
    var t1, rest := t[cs[0] := 0], cs[1..];
    assert forall i :: 0 <= i < |rest| ==> rest[i] == cs[i + 1];
  }

  lemma ClearedTail(t: seq<nat>, cs: seq<nat>)
    requires |cs| > 0 && cs[0] < |t|
    ensures Cleared(t[cs[0] := 0], cs[1..]) == Cleared(t, cs)
  {
    assert cs == [cs[0]] + cs[1..];
  }

  /** Removing chain `k` frees exactly its clusters; the other chains stay. */
  lemma FamilyRemoved(t: seq<nat>, fam: seq<seq<nat>>, k: nat)
    requires Family(t, fam) && k < |fam|
    ensures RemoveFrom(t, fam[k][0]) == (Cleared(t, fam[k]), true)
    ensures Family(Cleared(t, fam[k]), fam[..k] + fam[k + 1..])
  {
    ChainRemoved(t, fam[k]);
    var fam' := fam[..k] + fam[k + 1..];
    forall l | 0 <= l < |fam'|
      ensures IsChain(Cleared(t, fam[k]), fam'[l])
    {
      var l' := if l < k then l else l + 1;
      assert fam'[l] == fam[l'];
      assert Disjoint(fam[l'], fam[k]) || Disjoint(fam[k], fam[l']);
      ChainKept(t, Cleared(t, fam[k]), fam[l']);
    }
  }

  // ---- truncating -------------------------------------------------------------------------

  /** The table after the chain `cs` has been cut behind its first `k` clusters. */
  function Cut(t: seq<nat>, cs: seq<nat>, k: nat, eoc: nat): (t': seq<nat>)
    requires 1 <= k <= |cs| && forall i :: 0 <= i < |cs| ==> cs[i] < |t|
    ensures |t'| == |t|
  {
    if k == |cs| then t else Cleared(t[cs[k - 1] := eoc], cs[k..])
  }

  lemma ChainCut(t: seq<nat>, cs: seq<nat>, k: nat, eoc: nat)
    requires IsChain(t, cs) && 1 <= k < |cs| && eoc >= |t|
    ensures t[cs[k - 1]] == cs[k]
    ensures IsChain(t[cs[k - 1] := eoc], cs[..k]) && IsChain(t[cs[k - 1] := eoc], cs[k..])
    ensures RemoveFrom(t[cs[k - 1] := eoc], cs[k]) == (Cut(t, cs, k, eoc), true)
    ensures IsChain(Cut(t, cs, k, eoc), cs[..k])
    ensures Free(Cut(t, cs, k, eoc)) == Free(t) + (|cs| - k)
  {
    var t1, rest := t[cs[k - 1] := eoc], cs[k..];
    ChainLink(t, cs, k - 1);
    FreeUpdate(t, cs[k - 1], eoc);
    assert IsChain(t1, cs[..k]);
    assert IsChain(t1, rest);
    ChainRemoved(t1, rest);
    assert Disjoint(cs[..k], rest);
    ChainKept(t1, Cut(t, cs, k, eoc), cs[..k]);
  }

  /** Cutting chain `j` behind its first `k` clusters keeps the family, with that chain shorter. */
  lemma FamilyCut(t: seq<nat>, fam: seq<seq<nat>>, j: nat, k: nat, eoc: nat)
    requires Family(t, fam) && j < |fam| && 1 <= k < |fam[j]| && eoc >= |t|
    ensures Family(Cut(t, fam[j], k, eoc), fam[j := fam[j][..k]])
  {
    var cs := fam[j];
    ChainCut(t, cs, k, eoc);
    forall l | 0 <= l < |fam| && l != j
      ensures IsChain(Cut(t, cs, k, eoc), fam[l])
    {
      assert Disjoint(fam[l], cs) || Disjoint(cs, fam[l]);
      assert cs[k - 1] in cs;
      assert forall c :: c in cs[k..] ==> c in cs;
      ChainKept(t, Cut(t, cs, k, eoc), fam[l]);
    }
  }

  // ---- the free cluster count ---------------------------------------------------------------

  /** Allocating a free cluster takes one from the number of free clusters. */
  lemma FreeAllocated(t: seq<nat>, clst: nat, r: nat, eoc: nat)
    requires NeedsNew(t, clst) && 2 <= r < |t| && t[r] == 0 && eoc >= |t|
    ensures Free(Allocated(t, clst, r, eoc)) == Free(t) - 1
    ensures 1 <= Free(t) <= |t| - 2
  {
    FreeUpdate(t, r, eoc);
    if clst != 0 {
      FreeUpdate(t[r := eoc], clst, r);
    }
  }

  /** The first entry from `from` on that marks its cluster invalid, or the end of the table. */
  function FirstInvalid(t: seq<nat>, from: nat): (c: nat)
    requires from <= |t|
    ensures from <= c <= |t| && (c < |t| ==> t[c] == 1)
    ensures forall d :: from <= d < c ==> t[d] != 1
    decreases |t| - from
  {
    if from == |t| || t[from] == 1 then from else FirstInvalid(t, from + 1)
  }

  /** The entries a full scan of f_getfree counts: all of them, or on FAT12 those from 2 on, up to the
      first invalid one. */
  function Scanned(fat12: bool, t: seq<nat>): (s: seq<nat>)
    requires |t| >= 2
  {
    if fat12 then t[2..FirstInvalid(t, 2)] else t
  }

  /** The full scan finds the number of free clusters exactly when, on FAT12, no free cluster is behind
      an invalid one, and else the two reserved entries are not zero. */
  lemma ScanExact(fat12: bool, t: seq<nat>)
    requires |t| >= 2
    ensures CountZero(Scanned(fat12, t)) == Free(t) <==>
      if fat12 then forall d :: FirstInvalid(t, 2) <= d < |t| ==> t[d] != 0 else t[0] != 0 && t[1] != 0
  {
    hide CountZero;
    if fat12 {
      CountBetween(t, 2, FirstInvalid(t, 2));
    } else {
      CountReserved(t);
    }
  }

  /** Two tables that are miscounted: FAT12 with a free cluster behind an invalid one, and FAT16 with
      reserved entries that are zero. */
  lemma Miscounted()
    ensures CountZero(Scanned(true, [0xFF8, 0xFFF, 1, 0])) == 0 && Free([0xFF8, 0xFFF, 1, 0]) == 1
    ensures CountZero(Scanned(false, [0, 0, 0xFFFF])) == 2 && Free([0, 0, 0xFFFF]) == 0
  {
    assert [0xFF8, 0xFFF, 1, 0][2..2] == [] && [0xFF8, 0xFFF, 1, 0][2..] == [1, 0];
    assert [0, 0, 0xFFFF][2..] == [0xFFFF];
    NoZero([0xFFFF]);
    CountReserved([0, 0, 0xFFFF]);
  }

  lemma CountBetween(t: seq<nat>, a: nat, c: nat)
    requires a <= c <= |t|
    ensures CountZero(t[a..c]) == CountZero(t[a..]) <==> forall d :: c <= d < |t| ==> t[d] != 0
  {
    hide CountZero;
    CountSplit(t[a..], c - a);
    assert t[a..][..c - a] == t[a..c] && t[a..][c - a..] == t[c..];
    NoZero(t[c..]);
    assert forall d :: c <= d < |t| ==> t[d] == t[c..][d - c];
  }

  lemma CountReserved(t: seq<nat>)
    requires |t| >= 2
    ensures CountZero(t) == CountZero(t[2..]) <==> t[0] != 0 && t[1] != 0
  {
    hide CountZero;
    CountSplit(t, 2);
    CountNext(t, 0, 0);
    CountNext(t, 0, 1);
    CountNone(t);
    assert t[0..2] == t[..2];
  }

  // ---- one file among others ------------------------------------------------------------------

  /** The chains of the volume: a file's own, when it has one, and the others. */
  function AllChains(chain: seq<nat>, others: seq<seq<nat>>): seq<seq<nat>> {
    if chain == [] then others else [chain] + others
  }

  /** A file's chain, stretched or begun by a free cluster, still shares nothing with the others. */
  lemma AllAllocated(t: seq<nat>, chain: seq<nat>, others: seq<seq<nat>>, r: nat, eoc: nat)
    requires Family(t, AllChains(chain, others)) && 2 <= r < |t| && t[r] == 0 && eoc >= |t|
    requires chain != [] ==> chain[|chain| - 1] < |t|
    ensures var last := if chain == [] then 0 else chain[|chain| - 1];
      Family(Allocated(t, last, r, eoc), AllChains(chain + [r], others))
  {
    if chain == [] {
      FamilyCreated(t, others, r, eoc);
      var t' := t[r := eoc];
      assert IsChain(t', [r]);
      forall l | 0 <= l < |others|
        ensures r !in others[l]
        ensures IsChain(t', others[l])
      {
        FreeOutside(t, others[l], r);
        assert (others + [[r]])[l] == others[l];
      }
    } else {
      var all := AllChains(chain, others);
      assert all[0] == chain;
      FamilyStretched(t, all, 0, r, eoc);
      assert all[0 := chain + [r]] == AllChains(chain + [r], others);
      ChainLink(t, chain, |chain| - 1);
    }
  }

  lemma OwnChain(t: seq<nat>, chain: seq<nat>, others: seq<seq<nat>>)
    requires Family(t, AllChains(chain, others)) && chain != []
    ensures IsChain(t, chain)
  {
    assert AllChains(chain, others)[0] == chain;
  }

  /** Truncating a file behind its first `k` clusters frees exactly the others of its clusters; a
      file without any cluster left is no chain any more. */
  function Truncated(t: seq<nat>, cs: seq<nat>, k: nat, eoc: nat): (t': seq<nat>)
    requires k <= |cs| && forall i :: 0 <= i < |cs| ==> cs[i] < |t|
    ensures |t'| == |t|
  {
    if k == 0 then Cleared(t, cs) else Cut(t, cs, k, eoc)
  }

  lemma AllTruncated(t: seq<nat>, chain: seq<nat>, others: seq<seq<nat>>, k: nat, eoc: nat)
    requires |t| >= 2 && Family(t, AllChains(chain, others)) && chain != [] && k <= |chain| && eoc >= |t|
    ensures forall i :: 0 <= i < |chain| ==> chain[i] < |t|
    ensures Family(Truncated(t, chain, k, eoc), AllChains(chain[..k], others))
    ensures Free(Truncated(t, chain, k, eoc)) == Free(t) + (|chain| - k)
  {
    hide Family, Free;
    var all := AllChains(chain, others);
    OwnChain(t, chain, others);
    assert all[0] == chain;
    if k == 0 {
      FamilyRemoved(t, all, 0);
      ChainRemoved(t, chain);
      assert all[..0] + all[1..] == others;
    } else if k < |chain| {
      ChainCut(t, chain, k, eoc);
      FamilyCut(t, all, 0, k, eoc);
      assert all[0 := chain[..k]] == AllChains(chain[..k], others);
    } else {
      assert chain[..k] == chain;
    }
  }

  lemma NoneInvalid(t: seq<nat>, cs: seq<nat>, k: nat, eoc: nat)
    requires k <= |cs| && (forall i :: 0 <= i < |cs| ==> cs[i] < |t|) && eoc > 1
    requires forall c :: 2 <= c < |t| ==> t[c] != 1
    ensures forall c :: 2 <= c < |t| ==> Truncated(t, cs, k, eoc)[c] != 1
  {
  }
}
