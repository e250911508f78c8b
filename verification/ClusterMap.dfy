/** The cluster link map of fast seek: a chain cut into fragments of consecutive clusters, each
    stored as its length and first cluster, closed by a zero. */
module ClusterMap {

  datatype Fragment = Fragment(len: nat, top: nat)

  /** The clusters of one fragment. */
  function Run(f: Fragment): (r: seq<nat>)
    ensures |r| == f.len
  {
    seq(f.len, i requires 0 <= i < f.len => f.top + i)
  }

  /** A fragment holds consecutive clusters, from its first one up. */
  lemma RunIs(f: Fragment, i: nat)
    requires i < f.len
    ensures Run(f)[0] == f.top && (i > 0 ==> Run(f)[i] == Run(f)[i - 1] + 1)
  {
  }

  /** The clusters of all fragments. */
  function Expand(fr: seq<Fragment>): seq<nat> {
    if fr == [] then [] else Run(fr[0]) + Expand(fr[1..])
  }

  /** The table `tbl` holds the fragments `fr` behind its size item, and the end mark. */
  ghost predicate Encodes(tbl: seq<nat>, fr: seq<Fragment>) {
    && 2 + 2 * |fr| <= |tbl|
    && (forall j :: 0 <= j < |fr| ==> fr[j].len > 0 && tbl[1 + 2 * j] == fr[j].len && tbl[2 + 2 * j] == fr[j].top)
    && tbl[1 + 2 * |fr|] == 0
  }

  /** What the table says about the `cl`-th cluster of the file. */
  function Lookup(fr: seq<Fragment>, cl: nat): nat {
    if fr == [] then 0
    else if cl < fr[0].len then fr[0].top + cl
    else Lookup(fr[1..], cl - fr[0].len)
  }

  /** Looking up a cluster finds it in the chain, and finds 0 behind the end of the chain. */
  lemma {:induction false} LookupExact(fr: seq<Fragment>, cl: nat)
    ensures Lookup(fr, cl) == if cl < |Expand(fr)| then Expand(fr)[cl] else 0
  {
    if fr != [] && cl >= fr[0].len {
      LookupExact(fr[1..], cl - fr[0].len);
    }
  }

  lemma {:induction false} ExpandAppend(fr: seq<Fragment>, f: Fragment)
    ensures Expand(fr + [f]) == Expand(fr) + Run(f)
  {
    if fr == [] {
      assert Expand([f]) == Run(f) + Expand([]);
    } else {
      assert (fr + [f])[1..] == fr[1..] + [f];
      ExpandAppend(fr[1..], f);
    }
  }

  /** The number of maximal runs of consecutive clusters in a chain. */
  function RunCount(cs: seq<nat>): nat {
    if cs == [] then 0
    else RunCount(cs[..|cs| - 1]) + if |cs| == 1 || cs[|cs| - 1] != cs[|cs| - 2] + 1 then 1 else 0
  }

  lemma RunCountNext(cs: seq<nat>, i: nat)
    requires i < |cs|
    ensures RunCount(cs[..i + 1]) == RunCount(cs[..i]) + if i == 0 || cs[i] != cs[i - 1] + 1 then 1 else 0
  {
    assert cs[..i + 1][..i] == cs[..i];
  }

  /** Clusters `i` to `i + n` of the chain, consecutive and not the continuation of the run
      before them, are one run more. */
  lemma {:induction false} RunCountFragment(cs: seq<nat>, i: nat, n: nat)
    requires 0 < n && i + n <= |cs|
    requires i == 0 || cs[i] != cs[i - 1] + 1
    requires forall j :: i < j < i + n ==> cs[j] == cs[j - 1] + 1
    ensures RunCount(cs[..i + n]) == RunCount(cs[..i]) + 1
  {
    RunCountNext(cs, i + n - 1);
    if n > 1 {
      RunCountFragment(cs, i, n - 1);
    }
  }

  /** The table after one more fragment has been stored behind those of `fr`. */
  lemma TableGrown(tbl: seq<nat>, tbl': seq<nat>, fr: seq<Fragment>, f: Fragment)
    requires Stored(tbl, fr) && |tbl'| == |tbl| && 3 + 2 * |fr| <= |tbl| && f.len > 0
    requires tbl' == tbl[1 + 2 * |fr| := f.len][2 + 2 * |fr| := f.top]
    ensures Stored(tbl', fr + [f])
  {
  }

  /** The table holds the fragments `fr`, not closed yet. */
  ghost predicate Stored(tbl: seq<nat>, fr: seq<Fragment>) {
    && 1 + 2 * |fr| <= |tbl|
    && forall j :: 0 <= j < |fr| ==> fr[j].len > 0 && tbl[1 + 2 * j] == fr[j].len && tbl[2 + 2 * j] == fr[j].top
  }

  lemma EmptyStored(tbl: seq<nat>)
    requires 0 < |tbl|
    ensures Stored(tbl, [])
  {
  }

  /** `n` clusters of the chain from the `i`-th on have the numbers from `first` on. */
  ghost predicate Consecutive(chain: seq<nat>, i: nat, n: nat, first: nat) {
    i + n <= |chain| && forall k :: i <= k < i + n ==> chain[k] == first + (k - i)
  }

  lemma NoneYet(chain: seq<nat>, i: nat, first: nat)
    requires i <= |chain|
    ensures Consecutive(chain, i, 0, first)
  {
  }

  lemma OneMore(chain: seq<nat>, i: nat, n: nat, first: nat)
    requires Consecutive(chain, i, n, first) && i + n < |chain|
    ensures chain[i + n] == first + n ==> Consecutive(chain, i, n + 1, first)
  {
  }

  /** They are one fragment. */
  lemma RunFound(chain: seq<nat>, i: nat, n: nat, first: nat)
    requires Consecutive(chain, i, n, first)
    ensures chain[i..i + n] == Run(Fragment(n, first))
  {
  }
}
