/** An open file: its cursor, its chain of clusters and its own one-sector buffer, over a
    mounted volume. The non-tiny configuration, one open file on the volume. */
module FatFile {
  import opened Bytes
  import opened Arithmetic
  import opened FatGeometry
  import opened FatChain
  import opened FatView
  import opened FatVolume
  import opened FileData
  import opened ClusterMap

  datatype FResult = FrOk | FrIntErr | FrDenied | FrNotEnoughCore

  const CREATE_LINKMAP := 0xFFFF_FFFF

  /** `v` and `v'` agree outside the FAT and the clusters of `chain`. */
  ghost predicate OthersKept(g: Geometry, v: seq<Sector>, v': seq<Sector>, chain: seq<nat>)
    requires g.Ok() && |v| == g.total && |v'| == g.total
  {
    forall s :: 0 <= s < g.total && !g.InFatArea(s) && !OnChain(g, chain, s) ==> v[s] == v'[s]
  }

  /** `v` and `v'` agree outside the FAT. */
  ghost predicate DataKept(g: Geometry, v: seq<Sector>, v': seq<Sector>)
    requires g.Ok() && |v| == g.total && |v'| == g.total
  {
    forall s :: 0 <= s < g.total && !g.InFatArea(s) ==> v[s] == v'[s]
  }

  /** The data area lies behind the FAT. */
  lemma DataArea(g: Geometry, v: seq<Sector>, v': seq<Sector>)
    requires g.Ok() && |v| == g.total && |v'| == g.total && DataKept(g, v, v')
    ensures forall s :: g.database <= s < g.total ==> v[s] == v'[s]
  {
    FatEnd(g);
  }

  lemma OutsideFatData(g: Geometry, v: seq<Sector>, v': seq<Sector>)
    requires g.Ok() && |v| == g.total && SameOutsideFat(g, v, v')
    ensures DataKept(g, v, v')
  {
  }

  /** A dirty sector laid over both. */
  lemma DataOverlaid(g: Geometry, v: seq<Sector>, v': seq<Sector>, d: nat, b: Sector)
    requires g.Ok() && |v| == g.total && |v'| == g.total && DataKept(g, v, v') && d < g.total
    ensures DataKept(g, v[d := b], v'[d := b])
  {
  }

  /** Writing a run of sectors of the file stores just those sectors of it, and nothing else. */
  lemma RunStored(g: Geometry, w: seq<Sector>, w': seq<Sector>, chain: seq<nat>, k: nat, m: nat, i: nat, c: nat, x: seq<Byte>)
    requires g.Ok() && WellSized(g, w) && WellSized(g, w') && Clusters(g, chain)
    requires m < |chain| && k == m * g.csize + i && i + c <= g.csize
    requires k < |chain| * g.csize && k + c <= |chain| * g.csize && |x| == c * g.ss
    requires forall s :: 0 <= s < g.total ==>
      w'[s] == if SectorOf(g, chain, k) <= s < SectorOf(g, chain, k) + c then Chunk(x, g.ss, s - SectorOf(g, chain, k)) else w[s]
    ensures SectorsStored(g, w, w', chain, k, c, x)
    ensures OthersKept(g, w, w', chain)
  {
    hide Geometry.Ok, SectorOf, OnChain, Clusters, Chunk;
    RunSectors(g, chain, k, m, i, c);
    forall j: nat | j < |chain| * g.csize && SectorOf(g, chain, k) <= SectorOf(g, chain, j) < SectorOf(g, chain, k) + c
      ensures k <= j < k + c
    {
      SectorOfDistinct(g, chain, j, k + (SectorOf(g, chain, j) - SectorOf(g, chain, k)));
    }
    forall s | 0 <= s < g.total && !OnChain(g, chain, s)
      ensures w[s] == w'[s]
    {
      RunOnChain(g, chain, k, m, i, c, s);
    }
  }

  /** Putting `y` into the buffer `b` of file sector `k` patches that sector, and nothing else.
      Where the file grows, at offset 0, the buffer's other bytes are not the file's yet. */
  lemma PatchOne(g: Geometry, w: seq<Sector>, w': seq<Sector>, chain: seq<nat>, n: nat, k: nat, off: nat, y: seq<Byte>, b: Sector)
    requires g.Ok() && WellSized(g, w) && WellSized(g, w') && Clusters(g, chain) && k < |chain| * g.csize
    requires off + |y| <= g.ss == |b| && (b == w[SectorOf(g, chain, k)] || (off == 0 && n <= k * g.ss))
    requires w' == w[SectorOf(g, chain, k) := b[..off] + y + b[off + |y|..]]
    ensures SectorPatched(g, w, w', chain, n, k, off, y)
    ensures OthersKept(g, w, w', chain)
  {
    hide Geometry.Ok, SectorOf, OnChain, Clusters;
    SectorOnChain(g, chain, k);
    forall j | 0 <= j < |chain| * g.csize && j != k
      ensures SectorOf(g, chain, j) != SectorOf(g, chain, k)
    {
      if SectorOf(g, chain, j) == SectorOf(g, chain, k) {
        SectorOfDistinct(g, chain, j, k);
      }
    }
  }

  /** Clusters put at the end of a file, with the data area untouched, leave its bytes and
      everybody else's as they were. */
  lemma KeptFile(g: Geometry, w: seq<Sector>, w': seq<Sector>, chain: seq<nat>, chain': seq<nat>, n: nat)
    requires g.Ok() && WellSized(g, w) && WellSized(g, w') && Clusters(g, chain) && Clusters(g, chain')
    requires chain <= chain' && DataKept(g, w, w') && n <= |chain| * Bcs(g)
    ensures n <= |chain'| * Bcs(g) && Data(g, w', chain', n) == Data(g, w, chain, n)
    ensures OthersKept(g, w, w', chain')
  {
    DataArea(g, w, w');
    DataGrown(g, w, w', chain, chain', n);
  }

  lemma ClusterInRange(g: Geometry, chain: seq<nat>, i: nat)
    requires Clusters(g, chain) && i < |chain|
    ensures 2 <= chain[i] < g.nFatent
  {
  }

  /** A cursor inside the clusters that are left is a cursor still. */
  lemma CursorKept(g: Geometry, chain: seq<nat>, keep: nat, fptr: nat, clust: nat, dsect: nat)
    requires g.Ok() && Clusters(g, chain) && keep == ClustersFor(g, fptr) <= |chain|
    requires CursorAt(g, chain, fptr, clust, dsect)
    ensures Clusters(g, chain[..keep]) && CursorAt(g, chain[..keep], fptr, clust, dsect)
  {
    hide ClusterIx, ClusterOff, SectorIx, SectorOff, SectorOf, Geometry.Ok;
    CursorAtZero(g);
    if SectorOff(g, fptr) != 0 {
      ByteBefore(g, fptr);
      InCluster(g, chain, fptr);
      InCluster(g, chain[..keep], fptr);
    }
  }

  /** The dirty buffer belongs to one of the first `keep` clusters, and the map describes just them. */
  ghost predicate KeptParts(g: Geometry, chain: seq<nat>, keep: nat, dirty: bool, dsect: nat, fast: bool, mapped: seq<Fragment>)
    requires g.Ok() && Clusters(g, chain)
  {
    && keep <= |chain|
    && (dirty ==> OnChain(g, chain[..keep], dsect))
    && (fast ==> Expand(mapped) == chain[..keep] || (mapped == [] && keep <= 1))
  }

  /** No window over the FAT, or off the file, is over one of the clusters left. */
  lemma ShorterWindow(g: Geometry, chain: seq<nat>, keep: nat, s: nat)
    requires g.Ok() && Clusters(g, chain) && keep <= |chain| && (g.InFat(s) || !OnChain(g, chain, s))
    ensures !OnChain(g, chain[..keep], s)
  {
    FatEnd(g);
    OnChainMono(g, chain[..keep], chain, s);
  }

  /** The bytes before the cursor after the chain behind them has been cut off. */
  lemma TruncatedBytes(g: Geometry, w: seq<Sector>, w': seq<Sector>, chain: seq<nat>, keep: nat, n: nat, n': nat)
    requires g.Ok() && WellSized(g, w) && WellSized(g, w') && Clusters(g, chain) && keep <= |chain|
    requires DataKept(g, w, w') && n <= n' <= |chain| * Bcs(g) && n <= keep * Bcs(g)
    ensures Clusters(g, chain[..keep]) && Data(g, w', chain[..keep], n) == Data(g, w, chain, n')[..n]
  {
    DataArea(g, w, w');
    DataGrown(g, w', w, chain[..keep], chain, n);
    DataPrefix(g, w, chain, n, n');
  }

  lemma NothingMapped(chain: seq<nat>)
    ensures chain[..0] == [] && RunCount(chain[..0]) == 0 && Expand([]) == chain[..0]
  {
  }

  lemma EmptyExpand(fr: seq<Fragment>)
    ensures fr == [] ==> Expand(fr) == []
  {
  }

  /** The end mark of the chain is the number behind its last cluster. */
  ghost predicate EndFollows(chain: seq<nat>, t: seq<nat>, n: nat) {
    chain != [] && chain[|chain| - 1] < |t| && chain[|chain| - 1] < n && t[chain[|chain| - 1]] == chain[|chain| - 1] + 1
  }

  /** The chain has been followed up to its `i`-th cluster, `cl`, in the fragments `fr`. */
  ghost predicate Walked(chain: seq<nat>, n: nat, cl: nat, fr: seq<Fragment>, i: nat) {
    && i <= |chain| && Expand(fr) == chain[..i] && |fr| == RunCount(chain[..i])
    && if i < |chain| then cl == chain[i] < n && (i > 0 ==> cl != chain[i - 1] + 1) else cl >= n
  }

  lemma WalkedAt(chain: seq<nat>, n: nat, cl: nat, fr: seq<Fragment>, i: nat)
    requires Walked(chain, n, cl, fr, i) && i < |chain|
    ensures cl == chain[i]
  {
  }

  lemma WalkedMore(chain: seq<nat>, n: nat, cl: nat, fr: seq<Fragment>, i: nat, ncl: nat, cl': nat)
    requires Walked(chain, n, cl, fr, i) && 0 < ncl && i + ncl <= |chain|
    requires chain[i..i + ncl] == Run(Fragment(ncl, cl))
    requires if i + ncl < |chain| then cl' == chain[i + ncl] < n && cl' != chain[i + ncl - 1] + 1 else cl' >= n
    ensures Walked(chain, n, cl', fr + [Fragment(ncl, cl)], i + ncl)
  {
    hide Run, Expand, RunCount;
    FragmentAdded(chain, fr, i, ncl, cl);
  }

  /** The fragments are in the table `t` as far as it has room: `ulen` items are needed so far. */
  ghost predicate Filling(t: seq<nat>, tlen: nat, ulen: nat, tbl: nat, fr: seq<Fragment>) {
    && ulen == 2 + 2 * |fr| && tlen <= |t|
    && (ulen <= tlen || fr == [] ==> tbl == 1 + 2 * |fr| && Stored(t, fr))
  }

  lemma FillingRoom(t: seq<nat>, tlen: nat, ulen: nat, tbl: nat, fr: seq<Fragment>)
    requires Filling(t, tlen, ulen, tbl, fr)
    ensures ulen + 2 <= tlen ==> 0 < tbl && tbl + 1 < tlen <= |t|
  {
  }

  lemma FillingMore(t: seq<nat>, tlen: nat, ulen: nat, tbl: nat, fr: seq<Fragment>, ncl: nat, cl: nat)
    requires Filling(t, tlen, ulen, tbl, fr) && 0 < ncl
    ensures if ulen + 2 <= tlen then
        tbl + 1 < |t| && Filling(t[tbl := ncl][tbl + 1 := cl], tlen, ulen + 2, tbl + 2, fr + [Fragment(ncl, cl)])
      else Filling(t, tlen, ulen + 2, tbl, fr + [Fragment(ncl, cl)])
  {
    hide Stored;
    if ulen + 2 <= tlen {
      TableGrown(t, t[tbl := ncl][tbl + 1 := cl], fr, Fragment(ncl, cl));
    }
  }

  /** One fragment more of a chain that is being mapped. */
  lemma FragmentAdded(chain: seq<nat>, fr: seq<Fragment>, i: nat, ncl: nat, top: nat)
    requires 0 < ncl && i + ncl <= |chain| && chain[i..i + ncl] == Run(Fragment(ncl, top))
    requires Expand(fr) == chain[..i] && (i > 0 ==> top != chain[i - 1] + 1)
    ensures Expand(fr + [Fragment(ncl, top)]) == chain[..i + ncl]
    ensures RunCount(chain[..i + ncl]) == RunCount(chain[..i]) + 1
  {
    var f := Fragment(ncl, top);
    ExpandAppend(fr, f);
    assert chain[..i] + chain[i..i + ncl] == chain[..i + ncl];
    forall j | i <= j < i + ncl
      ensures chain[j] == top + (j - i)
    {
      assert chain[j] == chain[i..i + ncl][j - i] == Run(f)[j - i];
    }
    RunCountFragment(chain, i, ncl);
  }

  lemma DataKeptSelf(g: Geometry, w: seq<Sector>)
    requires g.Ok() && |w| == g.total
    ensures DataKept(g, w, w)
  {
  }

  lemma DataKeptTrans(g: Geometry, u: seq<Sector>, v: seq<Sector>, w: seq<Sector>)
    requires g.Ok() && |u| == g.total && |v| == g.total && |w| == g.total
    requires DataKept(g, u, v) && DataKept(g, v, w)
    ensures DataKept(g, u, w)
  {
  }

  lemma SpliceEmpty(c: seq<Byte>, p: nat, x: seq<Byte>)
    requires p <= |c|
    ensures Splice(c, p, x[..0]) == c
  {
  }

  lemma OthersKeptTrans(g: Geometry, u: seq<Sector>, v: seq<Sector>, w: seq<Sector>, chain: seq<nat>, chain': seq<nat>)
    requires g.Ok() && |u| == g.total && |v| == g.total && |w| == g.total && chain <= chain'
    requires OthersKept(g, u, v, chain) && OthersKept(g, v, w, chain')
    ensures OthersKept(g, u, w, chain')
  {
    hide Geometry.Ok, OnChain;
    forall s | 0 <= s < g.total && !g.InFatArea(s) && !OnChain(g, chain', s)
      ensures u[s] == w[s]
    {
      OnChainMono(g, chain, chain', s);
    }
  }

  lemma OnChainMono(g: Geometry, chain: seq<nat>, chain': seq<nat>, s: nat)
    requires g.Ok() && chain <= chain'
    ensures OnChain(g, chain, s) ==> OnChain(g, chain', s)
  {
    assert forall i :: 0 <= i < |chain| ==> chain'[i] == chain[i];
  }

  /** A file's chain after a free cluster has been put at its end. */
  lemma GrownChain(g: Geometry, t: seq<nat>, chain: seq<nat>, others: seq<seq<nat>>, r: nat)
    requires g.Ok() && |t| == g.nFatent && 2 <= r < |t| && t[r] == 0
    requires Family(t, AllChains(chain, others)) && Clusters(g, chain)
    requires forall c :: 2 <= c < |t| ==> t[c] != 1
    ensures var t' := Allocated(t, if chain == [] then 0 else chain[|chain| - 1], r, Eoc(g.kind));
      && Family(t', AllChains(chain + [r], others))
      && (forall c :: 2 <= c < |t'| ==> t'[c] != 1)
    ensures Clusters(g, chain + [r])
    ensures |chain| * Bcs(g) <= |chain + [r]| * Bcs(g)
  {
    hide Family, Bcs;
    Sizes(g);
    AllAllocated(t, chain, others, r, Eoc(g.kind));
    if chain != [] {
      OwnChain(t, chain, others);
      FreeOutside(t, chain, r);
    }
    MulStep(|chain|, Bcs(g));
  }

  /** What create_chain may answer a file that asks to go on behind its `j`-th cluster. */
  lemma CreatedForFile(t: seq<nat>, chain: seq<nat>, others: seq<seq<nat>>, j: nat, lastClust: nat, clst: nat, ncl: nat, t': seq<nat>, eoc: nat)
    requires Family(t, AllChains(chain, others)) && forall c :: 2 <= c < |t| ==> t[c] != 1
    requires if chain == [] then clst == 0 else j < |chain| && clst == chain[j]
    requires Created(t, lastClust, clst, ncl, t', eoc)
    ensures ncl != 1 && (NeedsNew(t, clst) <==> j + 1 >= |chain|)
    ensures ncl == 0 ==> t' == t && NeedsNew(t, clst) && forall c :: 2 <= c < |t| ==> t[c] != 0
    ensures ncl != 0 && j + 1 < |chain| ==> t' == t && ncl == chain[j + 1]
    ensures chain != [] ==> 2 <= chain[|chain| - 1] < |t|
    ensures ncl != 0 && j + 1 >= |chain| ==> 2 <= ncl < |t| && t[ncl] == 0
    ensures ncl != 0 && j + 1 >= |chain| ==> t' == Allocated(t, if chain == [] then 0 else chain[|chain| - 1], ncl, eoc)
  {
    if chain != [] {
      OwnChain(t, chain, others);
      ChainLink(t, chain, j);
    }
  }

  /** The cursor's cluster and buffer are those of the byte before, or at, the cursor. */
  ghost predicate CursorAt(g: Geometry, chain: seq<nat>, fptr: nat, clust: nat, dsect: nat)
    requires g.Ok() && Clusters(g, chain)
  {
    && (fptr > 0 ==> ClusterIx(g, fptr - 1) < |chain| && clust == chain[ClusterIx(g, fptr - 1)])
    && (SectorOff(g, fptr) != 0 ==>
          SectorIx(g, fptr) < |chain| * g.csize && dsect == SectorOf(g, chain, SectorIx(g, fptr)))
  }

  class File {
    const fs: Volume
    const buf: array<Byte>
    const canRead: bool
    const canWrite: bool
    var errFlag: bool
    var dirty: bool
    var written: bool
    var fptr: nat
    var fsize: nat
    var sclust: nat
    var clust: nat
    var dsect: nat
    var cltbl: array?<nat>
    ghost var chain: seq<nat>
    ghost const others: seq<seq<nat>>
    ghost var mapped: seq<Fragment>

    /** The file's structure: its chain, its size and its buffer. */
    ghost predicate Base()
      reads this, buf, fs, fs.win
    {
      && fs.Valid() && fs.g.Ok()
      && buf.Length == fs.g.ss && buf != fs.win
      && Family(fs.Fat(), AllChains(chain, others))
      && Clusters(fs.g, chain)
      && (chain == [] <==> sclust == 0) && (chain != [] ==> chain[0] == sclust)
      && (forall c :: 2 <= c < fs.g.nFatent ==> fs.Fat()[c] != 1)
      && fptr <= |chain| * Bcs(fs.g) && fsize <= |chain| * Bcs(fs.g)
      && fsize < 0x1_0000_0000
      && !OnChain(fs.g, chain, fs.winsect)
      && (dsect != 0 ==> fs.g.database <= dsect < fs.g.total)
      && (dirty ==> dsect != 0 && OnChain(fs.g, chain, dsect))
      && (!dirty && dsect != 0 ==> buf[..] == fs.View()[dsect])
    }

    ghost predicate Cursor()
      requires Base()
      reads this, buf, fs, fs.win
    {
      CursorAt(fs.g, chain, fptr, clust, dsect)
    }

    /** The volume content overlaid by the file's dirty buffer. */
    ghost function Over(): (w: seq<Sector>)
      requires Base()
      reads this, buf, fs, fs.win
      ensures WellSized(fs.g, w)
    {
      if dirty then fs.View()[dsect := buf[..]] else fs.View()
    }

    /** The bytes of the file. */
    ghost function Content(): (d: seq<Byte>)
      requires Base()
      reads this, buf, fs, fs.win
      ensures |d| == fsize
    {
      Data(fs.g, Over(), chain, fsize)
    }

    /** A file just opened. */
    constructor (fs: Volume, sclust: nat, fsize: nat, canRead: bool, canWrite: bool,
                 ghost chain: seq<nat>, ghost others: seq<seq<nat>>)
      requires fs.Valid() && fs.g.Ok() && Family(fs.Fat(), AllChains(chain, others)) && Clusters(fs.g, chain)
      requires (chain == [] <==> sclust == 0) && (chain != [] ==> chain[0] == sclust)
      requires forall c :: 2 <= c < fs.g.nFatent ==> fs.Fat()[c] != 1
      requires fsize <= |chain| * Bcs(fs.g) && fsize < 0x1_0000_0000
      requires !OnChain(fs.g, chain, fs.winsect)
      ensures Base() && Cursor() && !errFlag && fptr == 0 && fresh(buf) && cltbl == null
      ensures this.fs == fs && this.canRead == canRead && this.canWrite == canWrite
      ensures this.chain == chain && this.others == others && this.fsize == fsize
      ensures Content() == Data(fs.g, fs.View(), chain, fsize)
    {
      hide Geometry.Ok, Volume.View, Volume.Fat, Volume.Valid, Family, ClusterIx, SectorIx, Bcs, OnChain, Clusters, SectorOf;
      this.fs, this.canRead, this.canWrite := fs, canRead, canWrite;
      this.errFlag, this.dirty, this.written := false, false, false;
      this.fptr, this.fsize, this.sclust, this.clust, this.dsect := 0, fsize, sclust, 0, 0;
      this.cltbl := null;
      this.chain, this.others, this.mapped := chain, others, [];
      this.buf := new Byte[fs.g.ss](_ => 0);
    }

    /** What every operation keeps. A file that has met an error has no cursor any more. */
    ghost predicate Valid()
      reads this, buf, fs, fs.win, cltbl
    {
      Base() && MapOk() && fptr <= fsize && (!errFlag ==> Cursor())
    }

    // ---- the buffer -------------------------------------------------------------------------

    /** Copies bytes into the buffer. */
    method CopyToBuf(off: nat, y: seq<Byte>)
      requires off + |y| <= buf.Length
      modifies buf
      ensures buf[..] == old(buf[..off]) + y + old(buf[off + |y|..])
      ensures off == 0 && |y| == buf.Length ==> buf[..] == y
    {
      forall j | 0 <= j < |y| { buf[off + j] := y[j]; }
    }

    /** Writes the dirty buffer back. */
    method FlushBuf()
      requires Base()
      modifies this`dirty, fs`disk
      ensures Base() && !dirty && Over() == old(Over()) && fs.Fat() == old(fs.Fat())
    {
      hide Geometry.Ok, Volume.View, Volume.Fat, OnChain, Family, Clusters, Volume.Valid;
      if dirty {
        assert dsect != fs.winsect;
        fs.DiskWriteOne(dsect, buf[..]);
        dirty := false;
      }
    }

    /** Brings drive sector `sect` of the file into the buffer. */
    method LoadBuf(sect: nat)
      requires Base() && OnChain(fs.g, chain, sect) && fs.g.database <= sect < fs.g.total
      modifies this`dirty, this`dsect, fs`disk, buf
      ensures Base() && Over() == old(Over()) && dsect == sect && buf[..] == Over()[sect] && fs.Fat() == old(fs.Fat())
    {
      hide Geometry.Ok, Volume.View, Volume.Fat, OnChain, Family, Clusters, Volume.Valid;
      FatEnd(fs.g);
      if dsect != sect {
        FlushBuf();
        var x := fs.DiskReadOne(sect);
        CopyToBuf(0, x);
      }
      dsect := sect;
    }

    // ---- the cluster map --------------------------------------------------------------------

    /** The map describes the whole chain; one made when the file had no cluster may still be
        empty while the file has got its first cluster. */
    ghost predicate MapOk()
      reads this, cltbl
    {
      cltbl != null ==> Encodes(cltbl[..], mapped) && (Expand(mapped) == chain || (mapped == [] && |chain| <= 1))
    }

    /** clmt_clust: the cluster of the file that holds byte `ofs`, according to the map. */
    method ClmtClust(ofs: nat) returns (c: nat)
      requires fs.g.Ok() && cltbl != null && Encodes(cltbl[..], mapped)
      ensures c == if ClusterIx(fs.g, ofs) < |Expand(mapped)| then Expand(mapped)[ClusterIx(fs.g, ofs)] else 0
    {
      ghost var k, off, m, i := Place(fs.g, ofs);
      Sizes(fs.g);
      var cl := ofs / fs.g.ss / fs.g.csize;
      LookupExact(mapped, cl);
      ghost var j, want := 0, Lookup(mapped, cl);
      var tbl := 1;
      while true
        invariant 0 <= j <= |mapped| && tbl == 1 + 2 * j && cl >= 0
        invariant Lookup(mapped[j..], cl) == want
        decreases |mapped| - j
      {
        var ncl := cltbl[tbl];
        tbl := tbl + 1;
        if ncl == 0 {
          return 0;
        }
        if cl < ncl {
          return cl + cltbl[tbl];
        }
        cl := cl - ncl;
        tbl := tbl + 1;
        assert mapped[j..][1..] == mapped[j + 1..];
        j := j + 1;
      }
    }

    /** Reads the FAT entry of the file's `j`-th cluster; nothing of the file changes. */
    method LinkOf(clst: nat, ghost j: nat) returns (r: nat)
      requires Base() && j < |chain| && clst == chain[j]
      modifies fs`disk, fs`winsect, fs`wflag, fs.win
      ensures Base() && Over() == old(Over()) && fs.Fat() == old(fs.Fat())
      ensures r == fs.Fat()[clst] && (j + 1 < |chain| ==> r == chain[j + 1]) && (j + 1 == |chain| ==> r >= fs.g.nFatent)
    {
      hide Geometry.Ok, Volume.View, OnChain, Clusters, Volume.Valid, Family, Bcs, FatTable;
      OwnLink(j);
      r := fs.GetFat(clst);
      WindowInFat();
    }

    // ---- reading ----------------------------------------------------------------------------

    /** On a cluster boundary below the file size: the cluster of the byte at the cursor. */
    method NextClusterRead() returns (clst: nat)
      requires Base() && Cursor() && MapOk() && fptr < fsize && SectorOff(fs.g, fptr) == 0 && ClusterOff(fs.g, fptr) == 0
      modifies fs`disk, fs`winsect, fs`wflag, fs.win
      ensures Base() && Over() == old(Over()) && fs.Fat() == old(fs.Fat())
      ensures ClusterIx(fs.g, fptr) < |chain| && clst == chain[ClusterIx(fs.g, fptr)]
    {
      hide Geometry.Ok, Volume.View, Volume.Fat, Volume.Valid, OnChain, Clusters, Family, Encodes, ClusterIx, SectorIx, SectorOff, ClusterOff, Bcs;
      ghost var k, off, m, i := Place(fs.g, fptr);
      Capacity(fs.g, chain, fptr);
      if fptr == 0 {
        clst := sclust;
      } else if cltbl != null {
        clst := ClmtClust(fptr);
      } else {
        clst := LinkOf(clust, m - 1);
      }
    }

    /** On a sector boundary below the file size: makes `clust` the cluster of the byte at the
        cursor and answers its sector. */
    method EnterSectorRead(csect: nat) returns (sect: nat)
      requires Base() && Cursor() && MapOk() && fptr < fsize && SectorOff(fs.g, fptr) == 0
      requires csect == ClusterOff(fs.g, fptr)
      modifies this`clust, fs`disk, fs`winsect, fs`wflag, fs.win
      ensures Base() && MapOk() && Over() == old(Over()) && fs.Fat() == old(fs.Fat())
      ensures AtCursor() && sect == SectorOf(fs.g, chain, SectorIx(fs.g, fptr))
    {
      hide Geometry.Ok, Volume.View, Volume.Fat, Volume.Valid, OnChain, Clusters, Family, Encodes, ClusterIx, SectorIx, SectorOff, ClusterOff, Bcs, SectorOf;
      ghost var k, off, m, i := Place(fs.g, fptr);
      Capacity(fs.g, chain, fptr);
      SectorRun(fs.g, chain, k, m, i, 0);
      if csect == 0 {
        clust := NextClusterRead();
      }
      sect := Clust2Sect(fs.g, clust);
      sect := sect + csect;
    }

    /** The cursor is inside the file's clusters, and `clust` is the cluster of its byte. */
    ghost predicate AtCursor()
      requires Base()
      reads this, buf, fs, fs.win
    {
      && SectorIx(fs.g, fptr) < |chain| * fs.g.csize
      && ClusterIx(fs.g, fptr) < |chain| && clust == chain[ClusterIx(fs.g, fptr)]
    }

    /** Reads whole sectors directly, as many as the request and the cluster allow; a sector
        that the dirty buffer holds is taken from there. */
    method ReadWhole(sect: nat, csect: nat, btr: nat) returns (x: seq<Byte>)
      requires Base() && SectorOff(fs.g, fptr) == 0 && fs.g.ss <= btr && fptr + btr <= fsize
      requires csect == ClusterOff(fs.g, fptr)
      requires SectorIx(fs.g, fptr) < |chain| * fs.g.csize && sect == SectorOf(fs.g, chain, SectorIx(fs.g, fptr))
      ensures 0 < |x| <= btr && fptr % Bcs(fs.g) + |x| <= Bcs(fs.g) && |x| % fs.g.ss == 0
      ensures x == Content()[fptr..fptr + |x|]
    {
      hide Geometry.Ok, Volume.View, Volume.Fat, Volume.Valid, Family, SectorIx, SectorOff, ClusterOff, Bcs, Data, Chunk, OnChain, Clusters, SectorOf, File.Over;
      ghost var k, off, m, i := Place(fs.g, fptr);
      var cc := WholeSectors(fs.g, btr);
      if csect + cc > fs.g.csize {
        MulMono(fs.g.csize - csect, cc, fs.g.ss);
        cc := fs.g.csize - csect;
      }
      RunFacts(fs.g, chain, k, m, i, cc, btr);
      RunOnChain(fs.g, chain, k, m, i, cc, fs.winsect);
      RunSectors(fs.g, chain, k, m, i, cc);
      x := ReadRun(sect, cc);
      ReadWholeData(fs.g, Over(), chain, k, cc, x, fsize);
    }

    /** Reads consecutive sectors, with the dirty buffer laid over them. */
    method ReadRun(sect: nat, cc: nat) returns (x: seq<Byte>)
      requires Base() && fs.g.database <= sect && sect + cc <= fs.g.total && 0 < fs.g.ss
      requires !(sect <= fs.winsect < sect + cc)
      ensures |x| == cc * fs.g.ss
      ensures forall j :: 0 <= j < cc ==> Chunk(x, fs.g.ss, j) == Over()[sect + j]
    {
      hide Geometry.Ok, Volume.View, Volume.Fat, Volume.Valid, Family, Bcs, Chunk, ReplaceChunk, OnChain, Clusters;
      x := fs.DiskRead(sect, cc);
      if dirty && sect <= dsect < sect + cc {
        MulMono(dsect - sect + 1, cc, fs.g.ss);
        ChunksReplaced(x, fs.g.ss, dsect - sect, buf[..]);
        x := ReplaceChunk(x, fs.g.ss, dsect - sect, buf[..]);
      }
    }

    /** One round of f_read that reads whole sectors. */
    method ReadStepWhole(sect: nat, csect: nat, btr: nat) returns (x: seq<Byte>)
      requires Base() && SectorOff(fs.g, fptr) == 0 && fs.g.ss <= btr && fptr + btr <= fsize
      requires csect == ClusterOff(fs.g, fptr)
      requires AtCursor() && sect == SectorOf(fs.g, chain, SectorIx(fs.g, fptr))
      modifies this`fptr
      ensures Base() && Cursor() && Over() == old(Over())
      ensures 0 < |x| <= btr && fptr == old(fptr) + |x| && x == Content()[old(fptr)..fptr]
    {
      hide Geometry.Ok, Volume.View, Volume.Fat, Volume.Valid, Family, SectorIx, SectorOff, ClusterOff, ClusterIx, Bcs, Data, OnChain, Clusters, SectorOf;
      x := ReadWhole(sect, csect, btr);
      AdvanceWhole(fs.g, fptr, |x|);
      fptr := fptr + |x|;
    }

    /** One round of f_read that copies from the buffer. */
    method ReadStepPart(btr: nat) returns (x: seq<Byte>)
      requires Base() && 0 < btr && fptr + btr <= fsize
      requires AtCursor() && dsect == SectorOf(fs.g, chain, SectorIx(fs.g, fptr))
      modifies this`fptr
      ensures Base() && Cursor() && Over() == old(Over())
      ensures 0 < |x| <= btr && fptr == old(fptr) + |x| && x == Content()[old(fptr)..fptr]
    {
      hide Geometry.Ok, Volume.View, Volume.Fat, Volume.Valid, Family, SectorIx, SectorOff, ClusterOff, ClusterIx, Bcs, Data, OnChain, Clusters, SectorOf;
      BufShows();
      ghost var k, o, m, i := Place(fs.g, fptr);
      var off := SectorOff(fs.g, fptr);
      var rcnt := fs.g.ss - off;
      if rcnt > btr { rcnt := btr; }
      x := buf[off..off + rcnt];
      assert x == buf[..][off..off + rcnt];
      ReadPartData(fs.g, Over(), chain, k, off, x, fsize);
      AdvancePart(fs.g, fptr, rcnt);
      fptr := fptr + rcnt;
    }

    /** The buffer shows its sector of the overlaid volume. */
    lemma BufShows()
      requires Base() && SectorIx(fs.g, fptr) < |chain| * fs.g.csize && dsect == SectorOf(fs.g, chain, SectorIx(fs.g, fptr))
      ensures buf[..] == Over()[dsect]
    {
      Sizes(fs.g);
    }

    /** f_read: the bytes from the cursor on, as many as asked for and present. */
    method Read(count: nat) returns (res: FResult, data: seq<Byte>)
      requires Valid()
      modifies this`clust, this`fptr, this`dsect, this`dirty, fs`disk, fs`winsect, fs`wflag, fs.win, buf
      ensures Valid() && Over() == old(Over()) && Content() == old(Content()) && fs.Fat() == old(fs.Fat())
      ensures errFlag || !canRead ==> res == (if errFlag then FrIntErr else FrDenied) && data == [] && fptr == old(fptr)
      ensures !errFlag && canRead ==> res == FrOk && |data| == if count < fsize - old(fptr) then count else fsize - old(fptr)
      ensures !errFlag && canRead ==> fptr == old(fptr) + |data| && data == Content()[old(fptr)..fptr]
    {
      hide Geometry.Ok, Volume.View, Volume.Fat, Volume.Valid, Family, ClusterIx, SectorIx, SectorOff, ClusterOff, WholeSectors, Bcs, Data, OnChain, Clusters, SectorOf, Encodes, File.Over, CursorAt;
      data := [];
      if errFlag { return FrIntErr, []; }
      if !canRead { return FrDenied, []; }
      var btr: nat := count;
      if btr > fsize - fptr { btr := fsize - fptr; }
      ghost var goal := fptr + btr;
      while btr != 0
        invariant Base() && Cursor() && MapOk() && Over() == old(Over()) && fs.Fat() == old(fs.Fat())
        invariant old(fptr) <= fptr && fptr + btr == goal <= fsize
        invariant data == Content()[old(fptr)..fptr]
        decreases btr
      {
        var x := ReadStep(btr);
        SliceJoin(Content(), old(fptr), fptr - |x|, fptr);
        data, btr := data + x, btr - |x|;
      }
      res := FrOk;
    }

    /** One round of f_read. */
    method ReadStep(btr: nat) returns (x: seq<Byte>)
      requires Base() && Cursor() && MapOk() && 0 < btr && fptr + btr <= fsize
      modifies this`clust, this`fptr, this`dsect, this`dirty, fs`disk, fs`winsect, fs`wflag, fs.win, buf
      ensures Base() && Cursor() && MapOk() && Over() == old(Over()) && fs.Fat() == old(fs.Fat())
      ensures 0 < |x| <= btr && fptr == old(fptr) + |x| && x == Content()[old(fptr)..fptr]
    {
      hide Geometry.Ok, Volume.View, Volume.Fat, Volume.Valid, Family, ClusterIx, SectorIx, SectorOff, ClusterOff, WholeSectors, Bcs, Data, OnChain, Clusters, SectorOf, Encodes;
      CursorInside();
      if SectorOff(fs.g, fptr) == 0 {
        var csect := ClusterOff(fs.g, fptr);
        var sect := EnterSectorRead(csect);
        if WholeSectors(fs.g, btr) != 0 {
          x := ReadStepWhole(sect, csect, btr);
          return;
        }
        SectorOnChain(fs.g, chain, SectorIx(fs.g, fptr));
        LoadBuf(sect);
      }
      x := ReadStepPart(btr);
    }

    /** Inside a sector, the cursor's cluster and buffer are those of its byte. */
    lemma CursorInside()
      requires Base() && Cursor()
      ensures SectorOff(fs.g, fptr) != 0 ==> AtCursor() && dsect == SectorOf(fs.g, chain, SectorIx(fs.g, fptr))
    {
      hide Geometry.Ok, Volume.View, Volume.Fat, Volume.Valid, Family, ClusterIx, SectorIx, SectorOff, ClusterOff, Bcs, OnChain, Clusters, SectorOf;
      var k, off, m, i := Place(fs.g, fptr);
    }

    // ---- growing ----------------------------------------------------------------------------

    /** Follows or stretches the chain behind cluster `clst`, its `j`-th, or starts a chain when
        the file has none (`clst` is 0). 0 means that no cluster is free. */
    method Grow(clst: nat, ghost j: nat) returns (ncl: nat)
      requires Base() && (if chain == [] then clst == 0 && j == 0 else j < |chain| && clst == chain[j])
      modifies fs, fs.win, this`chain, this`sclust
      ensures Base() && old(chain) <= chain && DataKept(fs.g, old(Over()), Over())
      ensures ncl == 0 ==> chain == old(chain) && j + 1 >= |chain| && NoFree()
      ensures chain != old(chain) ==> |chain| <= j + 2
      ensures ncl != 0 && old(chain) == [] ==> chain == [ncl]
      ensures ncl != 0 && old(chain) != [] ==> j + 1 < |chain| && ncl == chain[j + 1]
      ensures chain == old(chain) || chain == old(chain) + [ncl]
      ensures old(fs.Counted()) ==> fs.Counted()
    {
      hide Geometry.Ok, Volume.View, Volume.Fat, Volume.Valid, OnChain, Family, Bcs, Allocated, Eoc, Clusters, Created, NeedsNew, SameOutsideFat, AllChains;
      if chain != [] { OwnLink(j); }
      ghost var t := fs.Fat();
      ncl := fs.CreateChain(clst);
      CreatedForFile(t, chain, others, j, old(fs.lastClust), clst, ncl, fs.Fat(), Eoc(fs.g.kind));
      OutsideFatData(fs.g, old(fs.View()), fs.View());
      DataArea(fs.g, old(fs.View()), fs.View());
      if dirty { DataOverlaid(fs.g, old(fs.View()), fs.View(), dsect, buf[..]); }
      if ncl != 0 && j + 1 >= |chain| {
        GrownChain(fs.g, t, chain, others, ncl);
        OnChainMono(fs.g, chain, chain + [ncl], dsect);
        chain := chain + [ncl];
      }
      if clst == 0 {
        sclust := ncl;
      }
      WindowInFat();
    }

    // ---- writing ----------------------------------------------------------------------------

    /** The number of bytes the file has, or has got in the course of a write. */
    ghost function Extent(): nat
      reads this
    {
      Max(fsize, fptr)
    }

    ghost function Bytes(): (d: seq<Byte>)
      requires Base()
      reads this, buf, fs, fs.win
    {
      Data(fs.g, Over(), chain, Extent())
    }

    /** On a cluster boundary: the cluster that goes on from the cursor, allocated if need be.
        0 means that the disk is full (or, in fast seek mode, the map ends). */
    method NextClusterWrite() returns (clst: nat)
      requires Base() && Cursor() && MapOk() && SectorOff(fs.g, fptr) == 0 && ClusterOff(fs.g, fptr) == 0
      modifies fs, fs.win, this`chain, this`sclust
      ensures Base() && MapOk() && old(chain) <= chain && DataKept(fs.g, old(Over()), Over())
      ensures cltbl != null && old(chain) != [] ==> chain == old(chain)
      ensures clst == 0 ==> chain == old(chain) && NoMoreClusters()
      ensures chain != old(chain) ==> (|chain| - 1) * Bcs(fs.g) <= fptr
      ensures clst != 0 ==> ClusterIx(fs.g, fptr) < |chain| && clst == chain[ClusterIx(fs.g, fptr)]
      ensures old(fs.Counted()) ==> fs.Counted()
    {
      hide Geometry.Ok, Volume.View, Volume.Fat, Volume.Valid, OnChain, Clusters, Family, Encodes, ClusterIx, SectorIx, SectorOff, ClusterOff, Bcs, CursorAt, File.Over, File.NoFree;
      StartOfChain();
      DataKeptSelf(fs.g, Over());
      if fptr == 0 && sclust != 0 {
        clst := sclust;
      } else if fptr > 0 && cltbl != null {
        clst := ClmtClust(fptr);
        if ClusterIx(fs.g, fptr) < |Expand(mapped)| { MapEntry(ClusterIx(fs.g, fptr)); }
      } else {
        EmptyMap();
        clst := GrowAtCursor(if fptr == 0 then 0 else clust);
      }
    }

    /** What the map says about a cluster of the file. */
    lemma MapEntry(j: nat)
      requires Base() && MapOk() && cltbl != null && j < |Expand(mapped)|
      ensures j < |chain| && Expand(mapped)[j] == chain[j] >= 2
    {
      hide Geometry.Ok, Volume.View, Volume.Fat, Volume.Valid, OnChain, Family;
    }

    lemma StartOfChain()
      requires Base()
      ensures fptr == 0 && sclust != 0 ==> ClusterIx(fs.g, fptr) == 0 < |chain| && sclust == chain[0]
      ensures fptr > 0 ==> chain != []
    {
      hide Geometry.Ok, Volume.View, Volume.Fat, Volume.Valid, OnChain, Clusters, Family;
      if fptr == 0 {
        var k, off, m, i := Place(fs.g, fptr);
      }
    }

    /** On a cluster boundary: follows or stretches the chain at the cursor. */
    method GrowAtCursor(clst: nat) returns (ncl: nat)
      requires Base() && Cursor() && SectorOff(fs.g, fptr) == 0 && ClusterOff(fs.g, fptr) == 0
      requires clst == if fptr == 0 then 0 else clust
      requires fptr == 0 ==> chain == []
      modifies fs, fs.win, this`chain, this`sclust
      ensures Base() && old(chain) <= chain && |chain| <= |old(chain)| + 1 && DataKept(fs.g, old(Over()), Over())
      ensures ncl == 0 ==> chain == old(chain) && fptr == |chain| * Bcs(fs.g) && NoFree()
      ensures chain != old(chain) ==> (|chain| - 1) * Bcs(fs.g) <= fptr
      ensures ncl != 0 ==> ClusterIx(fs.g, fptr) < |chain| && ncl == chain[ClusterIx(fs.g, fptr)]
      ensures old(fs.Counted()) ==> fs.Counted()
    {
      hide Geometry.Ok, Volume.View, Volume.Fat, Volume.Valid, OnChain, Clusters, Family, ClusterIx, SectorIx, SectorOff, ClusterOff, Bcs, File.Over, File.NoFree, DataKept;
      ghost var k, off, m, i := Place(fs.g, fptr);
      ncl := Grow(clst, if fptr == 0 then 0 else m - 1);
      BoundaryAt(fs.g, fptr, |chain|);
    }

    /** A map of a file without clusters has no fragment. */
    lemma EmptyMap()
      requires MapOk()
      ensures cltbl != null && chain == [] ==> mapped == []
    {
    }

    /** On a sector boundary: makes `clust` the cluster of the byte at the cursor, writes the
        dirty buffer back, and answers the sector; 0 means that there is no cluster. */
    method EnterSectorWrite(csect: nat) returns (sect: nat)
      requires Base() && Cursor() && MapOk() && SectorOff(fs.g, fptr) == 0
      requires csect == ClusterOff(fs.g, fptr)
      modifies fs, fs.win, this`chain, this`sclust, this`clust, this`dirty
      ensures Base() && MapOk() && old(chain) <= chain && DataKept(fs.g, old(Over()), Over())
      ensures cltbl != null && old(chain) != [] ==> chain == old(chain)
      ensures sect == 0 ==> Cursor() && chain == old(chain) && NoMoreClusters()
      ensures chain != old(chain) ==> (|chain| - 1) * Bcs(fs.g) <= fptr
      ensures sect != 0 ==> !dirty && AtCursor() && sect == SectorOf(fs.g, chain, SectorIx(fs.g, fptr))
      ensures old(fs.Counted()) ==> fs.Counted()
    {
      hide Geometry.Ok, Volume.View, Volume.Fat, Volume.Valid, OnChain, Clusters, Family, Encodes, ClusterIx, SectorIx, SectorOff, ClusterOff, Bcs, SectorOf;
      ghost var k, off, m, i := Place(fs.g, fptr);
      if csect == 0 {
        var found := EnterClusterWrite();
        if !found { return 0; }
      }
      InCluster(fs.g, chain, fptr);
      Sizes(fs.g);
      FlushBuf();
      sect := Clust2Sect(fs.g, clust);
      sect := sect + csect;
    }

    /** On a cluster boundary: makes `clust` the cluster of the byte at the cursor, if there is one
        or can be one. */
    method EnterClusterWrite() returns (found: bool)
      requires Base() && Cursor() && MapOk() && SectorOff(fs.g, fptr) == 0 && ClusterOff(fs.g, fptr) == 0
      modifies fs, fs.win, this`chain, this`sclust, this`clust
      ensures Base() && MapOk() && old(chain) <= chain && DataKept(fs.g, old(Over()), Over())
      ensures cltbl != null && old(chain) != [] ==> chain == old(chain)
      ensures !found ==> Cursor() && chain == old(chain) && NoMoreClusters()
      ensures chain != old(chain) ==> (|chain| - 1) * Bcs(fs.g) <= fptr
      ensures found ==> ClusterIx(fs.g, fptr) < |chain| && clust == chain[ClusterIx(fs.g, fptr)]
      ensures old(fs.Counted()) ==> fs.Counted()
    {
      hide Geometry.Ok, Volume.View, Volume.Fat, Volume.Valid, OnChain, Clusters, Family, Encodes, ClusterIx, SectorIx, SectorOff, ClusterOff, Bcs, SectorOf, File.Over, File.Base;
      Sane();
      var clst := NextClusterWrite();
      found := clst != 0;
      if found { TakeCluster(clst); }
    }

    /** Since the time when the volume content was `w`, the bytes of the file `c` and the cursor at `p`,
        the bytes `x` have been put in at the cursor, and the volume has kept everything else. */
    ghost predicate Wrote(w: seq<Sector>, c: seq<Byte>, p: nat, x: seq<Byte>)
      requires Base()
      reads this, buf, fs, fs.win
    {
      && fptr == p + |x| && p <= |c| && Bytes() == Splice(c, p, x)
      && |w| == fs.g.total && OthersKept(fs.g, w, Over(), chain)
    }

    /** One transfer more, that of the next `cnt` bytes of `x`. */
    lemma WroteMore(w: seq<Sector>, c: seq<Byte>, p: nat, x: seq<Byte>, bw: nat, cnt: nat, w1: seq<Sector>, chain1: seq<nat>)
      requires Base() && bw + cnt <= |x| && p <= |c| && |w| == |w1| == fs.g.total && chain1 <= chain
      requires OthersKept(fs.g, w, w1, chain1) && Wrote(w1, Splice(c, p, x[..bw]), p + bw, x[bw..][..cnt])
      ensures Wrote(w, c, p, x[..bw + cnt])
    {
      hide Geometry.Ok, Volume.Valid, Family, Bcs, Data, OnChain, Clusters, OthersKept, Splice;
      OthersKeptTrans(fs.g, w, w1, Over(), chain1, chain);
      SpliceMore(c, p, x, bw, cnt);
    }

    /** Writes whole sectors directly, as many as the request and the cluster allow, and refreshes
        the buffer when it shows one of them. */
    method WriteStepWhole(sect: nat, csect: nat, x: seq<Byte>) returns (cnt: nat)
      requires Base() && !dirty && SectorOff(fs.g, fptr) == 0 && fs.g.ss <= |x| && csect == ClusterOff(fs.g, fptr)
      requires AtCursor() && sect == SectorOf(fs.g, chain, SectorIx(fs.g, fptr))
      modifies this`fptr, fs`disk, buf
      ensures Base() && Cursor() && fs.Fat() == old(fs.Fat())
      ensures 0 < cnt <= |x| && Wrote(old(Over()), old(Bytes()), old(fptr), x[..cnt])
      ensures SectorOff(fs.g, fptr) == 0
    {
      hide Geometry.Ok, Volume.View, Volume.Fat, Volume.Valid, Family, SectorIx, SectorOff, ClusterOff, ClusterIx, Bcs, Data, OnChain, Clusters, SectorOf, OthersKept, SectorsStored, Splice, DataKept;
      ghost var k, off, m, i := Place(fs.g, fptr);
      ghost var n, w := Extent(), Over();
      var cc := WholeSectors(fs.g, |x|);
      if csect + cc > fs.g.csize {
        MulMono(fs.g.csize - csect, cc, fs.g.ss);
        cc := fs.g.csize - csect;
      }
      RunFacts(fs.g, chain, k, m, i, cc, |x|);
      cnt := cc * fs.g.ss;
      StoreRun(sect, cc, x[..cnt], k, m, i);
      StoredData(fs.g, w, Over(), chain, k, cc, x[..cnt], n);
      AdvanceWhole(fs.g, fptr, cnt);
      StoredRoom(fs.g, w, Over(), chain, k, cc, x[..cnt]);
      fptr := fptr + cnt;
    }

    /** Stores consecutive sectors of the file. */
    method StoreRun(sect: nat, cc: nat, x: seq<Byte>, ghost k: nat, ghost m: nat, ghost i: nat)
      requires Base() && !dirty && |x| == cc * fs.g.ss
      requires m < |chain| && k == m * fs.g.csize + i && i + cc <= fs.g.csize
      requires k < |chain| * fs.g.csize && k + cc <= |chain| * fs.g.csize && sect == SectorOf(fs.g, chain, k)
      modifies fs`disk, buf
      ensures Base() && fs.Fat() == old(fs.Fat()) && OthersKept(fs.g, old(Over()), Over(), chain)
      ensures SectorsStored(fs.g, old(Over()), Over(), chain, k, cc, x)
    {
      hide Geometry.Ok, Volume.View, Volume.Fat, Volume.Valid, Family, Bcs, OnChain, Clusters, SectorOf, Chunk;
      ghost var w := fs.View();
      RunOnChain(fs.g, chain, k, m, i, cc, fs.winsect);
      fs.DiskWrite(sect, cc, x);
      RefreshBuf(sect, cc, x);
      RunStored(fs.g, w, fs.View(), chain, k, m, i, cc, x);
    }

    /** Refills the buffer when it shows one of the sectors just written. */
    method RefreshBuf(sect: nat, cc: nat, x: seq<Byte>)
      requires |x| == cc * buf.Length
      modifies buf
      ensures buf[..] == if sect <= dsect < sect + cc then Chunk(x, buf.Length, dsect - sect) else old(buf[..])
    {
      hide Chunk;
      if sect <= dsect < sect + cc {
        ChunkSize(x, buf.Length, cc, dsect - sect);
        CopyToBuf(0, Chunk(x, buf.Length, dsect - sect));
      }
    }

    /** Puts part of a sector into the buffer. On a sector boundary the buffer first becomes that
        sector's, and is filled from the drive unless the file grows here. */
    method WriteStepPart(onBoundary: bool, sect: nat, x: seq<Byte>) returns (cnt: nat)
      requires Base() && AtCursor() && x != [] && sect == SectorOf(fs.g, chain, SectorIx(fs.g, fptr))
      requires if onBoundary then SectorOff(fs.g, fptr) == 0 && !dirty else dsect == sect
      modifies this`fptr, this`dsect, this`dirty, buf
      ensures Base() && Cursor()
      ensures 0 < cnt <= |x| && Wrote(old(Over()), old(Bytes()), old(fptr), x[..cnt])
      ensures dirty
    {
      hide Geometry.Ok, Volume.View, Volume.Fat, Volume.Valid, Family, SectorIx, SectorOff, ClusterOff, ClusterIx, Bcs, Data, OnChain, Clusters, SectorOf, OthersKept, SectorPatched, Splice;
      ghost var k, o, m, i := Place(fs.g, fptr);
      ghost var n, w := Extent(), Over();
      var off := SectorOff(fs.g, fptr);
      cnt := fs.g.ss - off;
      if cnt > |x| { cnt := |x|; }
      PatchSector(onBoundary, sect, off, x[..cnt]);
      AdvanceOver(w, n, k, off, x[..cnt]);
    }

    /** Moves the cursor over the bytes just put into the buffer. */
    method AdvanceOver(ghost w: seq<Sector>, ghost n: nat, ghost k: nat, ghost off: nat, y: seq<Byte>)
      requires Base() && AtCursor() && y != [] && n == Extent() <= |chain| * Bcs(fs.g) && WellSized(fs.g, w)
      requires k == SectorIx(fs.g, fptr) && off == SectorOff(fs.g, fptr) && fptr == k * fs.g.ss + off
      requires off + |y| <= fs.g.ss && dsect == SectorOf(fs.g, chain, k)
      requires SectorPatched(fs.g, w, Over(), chain, n, k, off, y)
      modifies this`fptr
      ensures Base() && Cursor() && Over() == old(Over()) && fptr == old(fptr) + |y|
      ensures Bytes() == Splice(Data(fs.g, w, chain, n), old(fptr), y)
    {
      hide Geometry.Ok, Volume.View, Volume.Fat, Volume.Valid, Family, SectorIx, SectorOff, ClusterOff, ClusterIx, Bcs, Data, OnChain, Clusters, SectorOf, SectorPatched, Splice;
      PatchedData(fs.g, w, Over(), chain, n, k, off, y);
      AdvancePart(fs.g, fptr, |y|);
      PatchedRoom(fs.g, w, Over(), chain, n, k, off, y);
      fptr := fptr + |y|;
    }

    /** Makes the clean buffer that of sector `sect`, reading the drive unless the file grows. */
    method FillForWrite(sect: nat)
      requires Base() && !dirty && OnChain(fs.g, chain, sect) && fs.g.database <= sect < fs.g.total
      modifies this`dsect, buf
      ensures dsect == sect && (buf[..] == fs.View()[sect] || fptr >= fsize)
    {
      hide Geometry.Ok, Volume.View, Volume.Fat, Volume.Valid, Family, Bcs, OnChain, Clusters;
      Sizes(fs.g);
      if dsect != sect && fptr < fsize {
        var z := fs.DiskReadOne(sect);
        CopyToBuf(0, z);
      }
      dsect := sect;
    }

    method PatchSector(onBoundary: bool, sect: nat, off: nat, y: seq<Byte>)
      requires Base() && AtCursor() && y != [] && sect == SectorOf(fs.g, chain, SectorIx(fs.g, fptr))
      requires off == SectorOff(fs.g, fptr) && off + |y| <= fs.g.ss
      requires if onBoundary then off == 0 && !dirty else dsect == sect
      modifies this`dsect, this`dirty, buf
      ensures Base() && dsect == sect && OthersKept(fs.g, old(Over()), Over(), chain)
      ensures SectorPatched(fs.g, old(Over()), Over(), chain, Extent(), SectorIx(fs.g, fptr), off, y)
      ensures dirty
    {
      hide Geometry.Ok, Volume.View, Volume.Fat, Volume.Valid, Family, SectorIx, SectorOff, ClusterIx, Bcs, OnChain, Clusters, SectorOf, OthersKept, SectorPatched;
      Sizes(fs.g);
      ghost var k, o, m, i := Place(fs.g, fptr);
      ghost var w := Over();
      SectorOnChain(fs.g, chain, k);
      if onBoundary {
        FillForWrite(sect);
      }
      ghost var b: Sector := buf[..];
      assert b[..off] == buf[..off] && b[off + |y|..] == buf[off + |y|..];
      assert b == w[sect] || (off == 0 && fptr >= fsize);
      CopyToBuf(off, y);
      dirty := true;
      PatchOne(fs.g, w, Over(), chain, Extent(), k, off, y, b);
    }

    /** One round of f_write; 0 bytes mean that there is no cluster to go on with. */
    method WriteStep(x: seq<Byte>) returns (cnt: nat)
      requires Base() && Cursor() && MapOk() && x != []
      modifies fs, fs.win, this`chain, this`sclust, this`clust, this`dirty, this`dsect, this`fptr, buf
      ensures Base() && Cursor() && MapOk() && old(chain) <= chain
      ensures cnt <= |x| && Wrote(old(Over()), old(Bytes()), old(fptr), x[..cnt])
      ensures chain != old(chain) ==> NoSpare(fptr)
      ensures cltbl != null && old(chain) != [] ==> chain == old(chain)
      ensures cnt == 0 ==> NoMoreClusters()
      ensures old(fs.Counted()) ==> fs.Counted()
      ensures SectorOff(fs.g, fptr) != 0 ==> dirty
    {
      hide Geometry.Ok, Volume.View, Volume.Fat, Volume.Valid, Family, ClusterIx, SectorIx, SectorOff, ClusterOff, WholeSectors, Bcs, Data, OnChain, Clusters, SectorOf, Encodes, DataKept, OthersKept, Splice, File.Over;
      CursorInside();
      if SectorOff(fs.g, fptr) == 0 {
        var csect := ClusterOff(fs.g, fptr);
        ghost var w, c, n := Over(), chain, Extent();
        var sect := EnterSectorWrite(csect);
        KeptFile(fs.g, w, Over(), c, chain, n);
        if sect == 0 {
          SpliceEmpty(Bytes(), fptr, x);
          return 0;
        }
        ghost var w1 := Over();
        cnt := WriteEntered(sect, csect, x);
        OthersKeptTrans(fs.g, w, w1, Over(), chain, chain);
      } else {
        cnt := WriteStepPart(false, dsect, x);
      }
    }

    /** The transfer of one round that starts on a sector boundary. */
    method WriteEntered(sect: nat, csect: nat, x: seq<Byte>) returns (cnt: nat)
      requires Base() && !dirty && SectorOff(fs.g, fptr) == 0 && x != [] && csect == ClusterOff(fs.g, fptr)
      requires AtCursor() && sect == SectorOf(fs.g, chain, SectorIx(fs.g, fptr))
      modifies this`fptr, this`dsect, this`dirty, fs`disk, buf
      ensures Base() && Cursor()
      ensures 0 < cnt <= |x| && Wrote(old(Over()), old(Bytes()), old(fptr), x[..cnt])
      ensures fs.Fat() == old(fs.Fat()) && (SectorOff(fs.g, fptr) != 0 ==> dirty)
    {
      hide Geometry.Ok, Volume.View, Volume.Fat, Volume.Valid, Family, ClusterIx, SectorIx, SectorOff, ClusterOff, WholeSectors, Bcs, Data, OnChain, Clusters, SectorOf, OthersKept, Splice, File.Over;
      if WholeSectors(fs.g, |x|) != 0 {
        cnt := WriteStepWhole(sect, csect, x);
      } else {
        cnt := WriteStepPart(true, sect, x);
      }
    }

    /** The last cluster of the chain begins before position `p`. */
    ghost predicate NoSpare(p: nat)
      reads this
    {
      (|chain| - 1) * Bcs(fs.g) < p
    }

    /** The cursor stands behind the last cluster the file can have: that of its chain on a full disk, or
        that of its map. */
    ghost predicate NoMoreClusters()
      requires Base()
      reads this, buf, fs, fs.win
    {
      if cltbl != null && ClusterIx(fs.g, fptr) >= |Expand(mapped)|
      then SectorOff(fs.g, fptr) == 0 && ClusterOff(fs.g, fptr) == 0
      else fptr == |chain| * Bcs(fs.g) && NoFree()
    }

    /** A cursor behind the last cluster stands at the end of the file. */
    lemma CursorAtEnd()
      requires Valid() && NoMoreClusters() && (cltbl != null ==> Expand(mapped) == chain)
      ensures fptr == fsize
    {
      hide Geometry.Ok, Volume.View, Volume.Fat, Volume.Valid, Family, Bcs, OnChain, Clusters, ClusterIx, SectorIx, SectorOff, ClusterOff, Encodes, CursorAt;
      if fptr < fsize {
        Capacity(fs.g, chain, fptr);
      }
    }

    /** A chain without a spare cluster has as many as its bytes take. */
    lemma ChainFits()
      requires Base() && NoSpare(fsize) && chain != []
      ensures |chain| == ClustersFor(fs.g, fsize)
    {
      hide Geometry.Ok, Volume.View, Volume.Fat, Volume.Valid, Family, Bcs, OnChain, Clusters, ClustersFor;
      ClustersForCeil(fs.g, fsize, |chain|);
      ClustersForCeil(fs.g, fsize, |chain| - 1);
    }

    /** f_write: the bytes of `buff` take the place of those at the cursor, as many as the disk has
        room for; no other byte of the volume's files changes. A file that would outgrow 4 GiB is
        not written at all. */
    method Write(buff: seq<Byte>) returns (res: FResult, bw: nat)
      requires Valid() && |buff| < 0x1_0000_0000
      modifies fs, fs.win, this`chain, this`sclust, this`clust, this`dirty, this`written, this`dsect, this`fptr, this`fsize, buf
      ensures Valid() && old(chain) <= chain && OthersKept(fs.g, old(Over()), Over(), chain)
      ensures errFlag || !canWrite ==> res == (if errFlag then FrIntErr else FrDenied) && bw == 0
      ensures !errFlag && canWrite ==> res == FrOk
      ensures bw <= |buff| && fptr == old(fptr) + bw
      ensures Content() == Splice(old(Content()), old(fptr), buff[..bw])
      ensures chain != old(chain) ==> NoSpare(fsize)
      ensures cltbl != null && old(chain) != [] ==> chain == old(chain)
      ensures !errFlag && canWrite && old(fsize) + |buff| >= 0x1_0000_0000 ==> bw == 0
      ensures res == FrOk && bw < |buff| ==> (old(fsize) + |buff| >= 0x1_0000_0000 && bw == 0) || NoMoreClusters()
      ensures old(fs.Counted()) ==> fs.Counted()
      ensures bw > 0 && SectorOff(fs.g, fptr) != 0 ==> dirty
    {
      hide Geometry.Ok, Volume.View, Volume.Fat, Volume.Valid, Family, ClusterIx, SectorIx, SectorOff, ClusterOff, Bcs, Data, OnChain, Clusters, SectorOf, Encodes, OthersKept, Splice, File.Over, File.NoMoreClusters, File.Base;
      bw := 0;
      Sane();
      NothingWritten(buff);
      if errFlag { return FrIntErr, 0; }
      if !canWrite { return FrDenied, 0; }
      var btw := |buff|;
      if (fsize + btw) % 0x1_0000_0000 < fsize { btw := 0; }
      bw := WriteLoop(buff[..btw]);
      assert buff[..btw][..bw] == buff[..bw];
      FinishWrite();
      res := FrOk;
    }

    lemma Sane()
      requires Base()
      ensures fs.Valid() && fs.g.Ok() && fsize < 0x1_0000_0000
    {
      hide Geometry.Ok, Volume.Valid, Family, Bcs, OnChain, Clusters;
    }

    /** Before the first byte is written, everything is as it was. */
    lemma NothingWritten(x: seq<Byte>)
      requires Base() && fptr <= fsize
      ensures OthersKept(fs.g, Over(), Over(), chain) && Splice(Content(), fptr, x[..0]) == Content()
    {
      hide Geometry.Ok, Volume.View, Volume.Fat, Volume.Valid, Family, Bcs, Data, OnChain, Clusters, OthersKept;
      SpliceEmpty(Content(), fptr, x);
      KeptFile(fs.g, Over(), Over(), chain, chain, fsize);
    }

    /** Takes the bytes written into the file size. */
    method FinishWrite()
      requires Base() && Cursor() && MapOk() && Extent() < 0x1_0000_0000
      modifies this`fsize, this`written
      ensures Base() && Cursor() && MapOk() && fptr <= fsize && Over() == old(Over()) && Content() == old(Bytes())
      ensures old(NoMoreClusters()) ==> NoMoreClusters()
    {
      hide Geometry.Ok, Volume.View, Volume.Fat, Volume.Valid, Family, ClusterIx, SectorIx, SectorOff, ClusterOff, Bcs, Data, OnChain, Clusters, SectorOf, Encodes;
      if fptr > fsize { fsize := fptr; }
      written := true;
    }

    /** The transfer loop of f_write. */
    method WriteLoop(x: seq<Byte>) returns (bw: nat)
      requires Base() && Cursor() && MapOk() && fptr <= fsize && !errFlag
      modifies fs, fs.win, this`chain, this`sclust, this`clust, this`dirty, this`dsect, this`fptr, buf
      ensures Base() && Cursor() && MapOk() && old(chain) <= chain
      ensures bw <= |x| && Wrote(old(Over()), old(Content()), old(fptr), x[..bw])
      ensures chain != old(chain) ==> NoSpare(fptr)
      ensures cltbl != null && old(chain) != [] ==> chain == old(chain)
      ensures bw < |x| ==> NoMoreClusters()
      ensures old(fs.Counted()) ==> fs.Counted()
      ensures bw > 0 && SectorOff(fs.g, fptr) != 0 ==> dirty
    {
      hide Geometry.Ok, Volume.View, Volume.Fat, Volume.Valid, Family, ClusterIx, SectorIx, SectorOff, ClusterOff, Bcs, Data, OnChain, Clusters, SectorOf, Encodes, OthersKept, Splice, File.Over, File.NoMoreClusters, CursorAt, File.MapOk, File.Base;
      ghost var c0, p0, w0 := Content(), fptr, Over();
      bw := 0;
      Sane();
      NothingWritten(x);
      while bw < |x|
        invariant Base() && Cursor() && MapOk() && old(chain) <= chain && fs.Valid()
        invariant 0 <= bw <= |x| && Wrote(w0, c0, p0, x[..bw])
        invariant chain != old(chain) ==> NoSpare(fptr)
        invariant cltbl != null && old(chain) != [] ==> chain == old(chain)
        invariant bw > 0 && SectorOff(fs.g, fptr) != 0 ==> dirty
        invariant old(fs.Counted()) ==> fs.Counted()
        decreases |x| - bw
      {
        ghost var w1, ch1 := Over(), chain;
        var cnt := WriteStep(x[bw..]);
        Sane();
        WroteMore(w0, c0, p0, x, bw, cnt, w1, ch1);
        bw := bw + cnt;
        if cnt == 0 { break; }
      }
    }

    // ---- seeking ----------------------------------------------------------------------------

    /** Where a normal seek to `ofs` starts: at the current cluster when the target is not before
        it, else at the first cluster, which is allocated for an empty file. Answers that
        cluster, the file's `j`-th, and how far the target lies behind its start. */
    method SeekStart(ofs: nat) returns (clst: nat, rest: nat, ghost j: nat)
      requires Base() && Cursor() && 0 < ofs
      modifies fs, fs.win, this`chain, this`sclust, this`clust, this`fptr
      ensures Base() && old(chain) <= chain && DataKept(fs.g, old(Over()), Over())
      ensures clst == 0 ==> fptr == 0 && chain == [] && NoFree()
      ensures chain != old(chain) ==> (|chain| - 1) * Bcs(fs.g) <= fptr
      ensures clst != 0 ==> j < |chain| && clst == clust == chain[j] && fptr == j * Bcs(fs.g) && fptr + rest == ofs && 0 < rest
      ensures old(fs.Counted()) ==> fs.Counted()
    {
      hide Geometry.Ok, Volume.View, Volume.Fat, Volume.Valid, Family, ClusterIx, Bcs, OnChain, Clusters, DataKept, SectorOf, SectorIx, SectorOff;
      DataKeptSelf(fs.g, Over());
      var ifptr := fptr;
      if ifptr > 0 {
        SeekBack(fs.g, ofs, ifptr);
        MulMono(ClusterIx(fs.g, ifptr - 1), |chain|, Bcs(fs.g));
      }
      if ifptr > 0 && ClusterIx(fs.g, ofs - 1) >= ClusterIx(fs.g, ifptr - 1) {
        j := ClusterIx(fs.g, ifptr - 1);
        OwnLink(j);
        fptr := ClusterIx(fs.g, ifptr - 1) * Bcs(fs.g);
        rest := ofs - fptr;
        clst := clust;
      } else {
        rest, j := ofs, 0;
        clst := SeekFirst();
      }
    }

    /** The start of a seek at the first cluster, which an empty file gets now. */
    method SeekFirst() returns (clst: nat)
      requires Base()
      modifies fs, fs.win, this`chain, this`sclust, this`clust, this`fptr
      ensures Base() && old(chain) <= chain && DataKept(fs.g, old(Over()), Over()) && fptr == 0
      ensures clst == 0 ==> chain == [] && NoFree()
      ensures chain != old(chain) ==> |chain| == 1
      ensures clst != 0 ==> 0 < |chain| && clst == clust == chain[0]
      ensures old(fs.Counted()) ==> fs.Counted()
    {
      hide Geometry.Ok, Volume.View, Volume.Fat, Volume.Valid, Family, ClusterIx, Bcs, OnChain, Clusters, DataKept, SectorOf, SectorIx, SectorOff;
      DataKeptSelf(fs.g, Over());
      fptr := 0;
      clst := sclust;
      if clst == 0 {
        clst := Grow(0, 0);
      }
      clust := clst;
    }

    /** No cluster of the volume is free. */
    ghost predicate NoFree()
      requires fs.Valid()
      reads fs, fs.win
    {
      forall c :: 2 <= c < fs.g.nFatent ==> fs.Fat()[c] != 0
    }

    /** The cluster following loop of a normal seek. It ends in the cluster of the target, or, in
        write mode on a full disk, at the end of the last cluster. */
    method SeekFollow(first: nat, ofs: nat, ghost j0: nat) returns (clst: nat, rest: nat, ghost j: nat)
      requires Base() && j0 < |chain| && first == clust == chain[j0] && fptr == j0 * Bcs(fs.g) && 0 < ofs
      requires !canWrite ==> fptr + ofs <= |chain| * Bcs(fs.g)
      modifies fs, fs.win, this`chain, this`sclust, this`clust, this`fptr
      ensures Base() && old(chain) <= chain && DataKept(fs.g, old(Over()), Over())
      ensures j < |chain| && clst == clust == chain[j] && fptr == j * Bcs(fs.g) && 0 < rest <= Bcs(fs.g)
      ensures chain != old(chain) ==> (|chain| - 1) * Bcs(fs.g) <= fptr
      ensures fptr + rest == old(fptr) + ofs ||
        (canWrite && NoFree() && rest == Bcs(fs.g) && fptr + rest == |chain| * Bcs(fs.g) < old(fptr) + ofs)
      ensures old(fs.Counted()) ==> fs.Counted()
    {
      hide Geometry.Ok, Volume.View, Volume.Fat, Volume.Valid, Family, Bcs, OnChain, Clusters, DataKept, File.Over, File.NoFree;
      Sizes(fs.g);
      ghost var w0 := Over();
      DataKeptSelf(fs.g, w0);
      clst, rest, j := first, ofs, j0;
      while rest > Bcs(fs.g)
        invariant Base() && old(chain) <= chain && DataKept(fs.g, w0, Over())
        invariant j < |chain| && clst == clust == chain[j] && fptr == j * Bcs(fs.g) && 0 < rest
        invariant fptr + rest == old(fptr) + ofs
        invariant !canWrite ==> fptr + rest <= |chain| * Bcs(fs.g)
        invariant chain != old(chain) ==> (|chain| - 1) * Bcs(fs.g) <= fptr
        invariant old(fs.Counted()) ==> fs.Counted()
        decreases rest
      {
        ghost var w1 := Over();
        var nxt := SeekNext(clst, j, rest);
        DataKeptTrans(fs.g, w0, w1, Over());
        if nxt == 0 {
          rest := Bcs(fs.g);
          return;
        }
        clst, j := nxt, j + 1;
        rest := rest - Bcs(fs.g);
      }
    }

    /** One round of the cluster following loop: in write mode the chain is stretched if need be.
        0 means that the disk is full. */
    method SeekNext(clst: nat, ghost j: nat, ghost rest: nat) returns (nxt: nat)
      requires Base() && j < |chain| && clst == clust == chain[j] && fptr == j * Bcs(fs.g) && Bcs(fs.g) < rest
      requires !canWrite ==> fptr + rest <= |chain| * Bcs(fs.g)
      modifies fs, fs.win, this`chain, this`sclust, this`clust, this`fptr
      ensures Base() && old(chain) <= chain && DataKept(fs.g, old(Over()), Over())
      ensures nxt == 0 ==> canWrite && NoFree() && clust == old(clust) && fptr == old(fptr) && chain == old(chain)
      ensures nxt == 0 ==> fptr + Bcs(fs.g) == |chain| * Bcs(fs.g)
      ensures chain != old(chain) ==> (|chain| - 1) * Bcs(fs.g) <= fptr
      ensures nxt != 0 ==> j + 1 < |chain| && nxt == clust == chain[j + 1]
      ensures nxt != 0 ==> fptr == (j + 1) * Bcs(fs.g) == old(fptr) + Bcs(fs.g)
      ensures !canWrite ==> chain == old(chain)
      ensures old(fs.Counted()) ==> fs.Counted()
    {
      hide Geometry.Ok, Volume.View, Volume.Fat, Volume.Valid, Family, Bcs, OnChain, Clusters, File.Over;
      MulStep(j, Bcs(fs.g));
      if canWrite {
        nxt := Grow(clst, j);
        if |chain| <= j + 2 { MulMono(|chain| - 1, j + 1, Bcs(fs.g)); }
        if nxt == 0 { return; }
      } else {
        BlocksBehind(|chain|, j, Bcs(fs.g), rest);
        OwnLink(j);
        nxt := LinkOf(clst, j);
      }
      MulMono(j + 1, |chain|, Bcs(fs.g));
      MoveTo(nxt);
    }

    /** Steps to the next cluster. */
    method MoveTo(clst: nat)
      requires Base() && fptr + Bcs(fs.g) <= |chain| * Bcs(fs.g)
      modifies this`clust, this`fptr
      ensures Base() && Over() == old(Over()) && clust == clst && fptr == old(fptr) + Bcs(fs.g)
    {
      hide Geometry.Ok, Volume.View, Volume.Fat, Volume.Valid, Family, Bcs, OnChain, Clusters;
      clust := clst;
      fptr := fptr + Bcs(fs.g);
    }

    /** The end of a normal seek, `rest` bytes into (or at the end of) the file's `j`-th cluster:
        sets the cursor and loads the buffer when the cursor stands inside a sector. */
    method SeekFinish(clst: nat, rest: nat, ghost j: nat)
      requires Base() && j < |chain| && clst == clust == chain[j] && fptr == j * Bcs(fs.g) && 0 < rest <= Bcs(fs.g)
      modifies this`fptr, this`dirty, this`dsect, fs`disk, buf
      ensures Base() && Cursor() && Over() == old(Over()) && fs.Fat() == old(fs.Fat()) && fptr == old(fptr) + rest
      ensures SectorOff(fs.g, fptr) == 0 ==> dirty == old(dirty) && dsect == old(dsect)
    {
      hide Geometry.Ok, Volume.View, Volume.Fat, Volume.Valid, Family, Bcs, OnChain, Clusters, ClusterIx, ClusterOff, SectorIx, SectorOff, SectorOf;
      BehindByte(fs.g, j, rest);
      MulStep(j, Bcs(fs.g));
      MulMono(j + 1, |chain|, Bcs(fs.g));
      SetCursor(fptr + rest);
      if SectorOff(fs.g, fptr) != 0 {
        InCluster(fs.g, chain, fptr);
        SectorOnChain(fs.g, chain, SectorIx(fs.g, fptr));
        var nsect := Clust2Sect(fs.g, clst) + SectorIx(fs.g, rest);
        LoadBuf(nsect);
      }
    }

    method SetCursor(p: nat)
      requires Base() && p <= |chain| * Bcs(fs.g)
      modifies this`fptr
      ensures Base() && Over() == old(Over()) && fptr == p
    {
      fptr := p;
    }

    /** Moves the cursor by the normal seek; the file size is not looked at any more. */
    method SeekTo(ofs: nat)
      requires Base() && Cursor() && (!canWrite ==> ofs <= fsize)
      modifies fs, fs.win, this`chain, this`sclust, this`clust, this`fptr, this`dirty, this`dsect, buf
      ensures Base() && Cursor() && old(chain) <= chain && DataKept(fs.g, old(Over()), Over())
      ensures chain != old(chain) ==> NoSpare(fptr)
      ensures fptr == ofs || (canWrite && fptr < ofs && NoFree() && fptr == |chain| * Bcs(fs.g))
      ensures old(fs.Counted()) ==> fs.Counted()
      ensures SectorOff(fs.g, fptr) == 0 ==> dirty == old(dirty) && dsect == old(dsect)
    {
      hide Geometry.Ok, Volume.View, Volume.Fat, Volume.Valid, Family, Bcs, OnChain, Clusters, ClusterIx, ClusterOff, SectorIx, SectorOff, SectorOf, Encodes;
      CursorAtZero(fs.g);
      if ofs == 0 {
        SetCursor(0);
      } else {
        EmptyFile();
        var clst, rest; ghost var j;
        clst, rest, j := SeekStart(ofs);
        if clst != 0 {
          clst, rest, j := SeekFollow(clst, rest, j);
          SeekFinish(clst, rest, j);
        }
      }
    }

    lemma EmptyFile()
      requires Base()
      ensures chain == [] ==> fsize == 0
    {
      hide Geometry.Ok, Volume.View, Volume.Fat, Volume.Valid, Family, Bcs, OnChain, Clusters;
    }

    /** f_lseek in normal mode: moves the cursor. In write mode a target past the end makes the
        file longer, as far as the disk has room; otherwise the target is clipped. The bytes the
        file had stay. */
    method NormalSeek(target: nat)
      requires Valid() && !errFlag && cltbl == null && target < 0x1_0000_0000
      modifies fs, fs.win, this`chain, this`sclust, this`clust, this`fptr, this`fsize, this`written, this`dirty, this`dsect, buf
      ensures Valid() && old(chain) <= chain && OthersKept(fs.g, old(Over()), Over(), chain)
      ensures fsize == Max(old(fsize), fptr) && Content()[..old(fsize)] == old(Content())
      ensures chain != old(chain) ==> NoSpare(fsize)
      ensures var goal := if target > old(fsize) && !canWrite then old(fsize) else target;
        fptr == goal || (canWrite && fptr < goal && NoMoreClusters())
      ensures old(fs.Counted()) ==> fs.Counted()
      ensures SectorOff(fs.g, fptr) == 0 ==> dirty == old(dirty) && dsect == old(dsect)
    {
      hide Geometry.Ok, Volume.View, Volume.Fat, Volume.Valid, Family, Bcs, OnChain, Clusters, ClusterIx, ClusterOff, SectorIx, SectorOff, SectorOf, Encodes, Data, OthersKept, DataKept;
      var ofs := target;
      if ofs > fsize && !canWrite { ofs := fsize; }
      ghost var c, w, n := chain, Over(), fsize;
      SeekTo(ofs);
      KeptFile(fs.g, w, Over(), c, chain, n);
      FinishSeek();
    }

    /** Takes a cursor beyond the end into the file size. */
    method FinishSeek()
      requires Base() && Cursor() && MapOk() && fptr < 0x1_0000_0000 && !errFlag
      modifies this`fsize, this`written
      ensures Valid() && Over() == old(Over()) && fsize == Max(old(fsize), fptr)
      ensures old(fsize) <= |chain| * Bcs(fs.g) && Content()[..old(fsize)] == Data(fs.g, Over(), chain, old(fsize))
    {
      hide Geometry.Ok, Volume.View, Volume.Fat, Volume.Valid, Family, Bcs, OnChain, Clusters, ClusterIx, SectorIx, SectorOff, SectorOf, Encodes, Data;
      DataPrefix(fs.g, Over(), chain, fsize, Max(fsize, fptr));
      if fptr > fsize {
        fsize := fptr;
        written := true;
      }
    }

    // ---- fast seek ----------------------------------------------------------------------------

    /** f_lseek in fast seek mode: the target is clipped at the file size and the cursor set from
        the map alone. It fails, and aborts the file, exactly when the map was made while the file
        had no cluster and the file has got one since. */
    method FastSeek(target: nat) returns (res: FResult)
      requires Valid() && !errFlag && cltbl != null
      modifies this`fptr, this`clust, this`errFlag, this`dirty, this`dsect, fs`disk, buf
      ensures Valid() && Over() == old(Over()) && Content() == old(Content()) && fs.Fat() == old(fs.Fat())
      ensures fptr == if target < fsize then target else fsize
      ensures res == if Expand(mapped) != chain && fptr > 0 then FrIntErr else FrOk
      ensures errFlag == (res == FrIntErr)
      ensures SectorOff(fs.g, fptr) == 0 ==> dirty == old(dirty) && dsect == old(dsect)
    {
      hide Geometry.Ok, Volume.View, Volume.Fat, Volume.Valid, Family, Bcs, OnChain, Clusters, ClusterIx, ClusterOff, SectorIx, SectorOff, SectorOf, Encodes, Data;
      var ofs := target;
      if ofs > fsize { ofs := fsize; }
      CursorAtZero(fs.g);
      SetCursor(ofs);
      res := FrOk;
      if ofs != 0 {
        Capacity(fs.g, chain, ofs - 1);
        ClusterInRange(fs.g, chain, ClusterIx(fs.g, ofs - 1));
        var c := ClmtClust(ofs - 1);
        EmptyExpand(mapped);
        res := FastTarget(ofs, c);
      }
    }

    /** The end of a fast seek: takes over the cluster and loads the buffer. */
    method FastTarget(ofs: nat, c: nat) returns (res: FResult)
      requires Base() && 0 < ofs == fptr && !errFlag && ClusterIx(fs.g, ofs - 1) < |chain|
      requires c == 0 || c == chain[ClusterIx(fs.g, ofs - 1)]
      modifies this`clust, this`errFlag, this`dirty, this`dsect, fs`disk, buf
      ensures Base() && Over() == old(Over()) && fs.Fat() == old(fs.Fat())
      ensures res == (if c == 0 then FrIntErr else FrOk) && errFlag == (c == 0)
      ensures res == FrOk ==> Cursor()
      ensures SectorOff(fs.g, fptr) == 0 ==> dirty == old(dirty) && dsect == old(dsect)
    {
      hide Geometry.Ok, Volume.View, Volume.Fat, Volume.Valid, Family, Bcs, OnChain, Clusters, ClusterIx, ClusterOff, SectorIx, SectorOff, SectorOf;
      ClusterInRange(fs.g, chain, ClusterIx(fs.g, ofs - 1));
      TakeCluster(c);
      var dsc := Clust2Sect(fs.g, c);
      if dsc == 0 {
        Abort();
        return FrIntErr;
      }
      dsc := dsc + ClusterOff(fs.g, ofs - 1);
      if SectorOff(fs.g, fptr) != 0 {
        ByteBefore(fs.g, ofs);
        InCluster(fs.g, chain, ofs);
        SectorOnChain(fs.g, chain, SectorIx(fs.g, ofs));
        LoadBuf(dsc);
      }
      res := FrOk;
    }

    method TakeCluster(c: nat)
      requires Base()
      modifies this`clust
      ensures Base() && Over() == old(Over()) && clust == c
    {
      clust := c;
    }

    /** Marks the file aborted. */
    method Abort()
      requires Base()
      modifies this`errFlag
      ensures Base() && Over() == old(Over()) && errFlag
    {
      errFlag := true;
    }

    /** The end mark of the file's chain is the number behind its last cluster, so that the map
        builder takes it for one more cluster of the last fragment. */
    ghost predicate MarkFollows()
      requires Base()
      reads this, buf, fs, fs.win
    {
      EndFollows(chain, fs.Fat(), fs.g.nFatent)
    }

    /** The FAT entry of the file's `i`-th cluster `cl`, or the error value 1 for the number just
        behind the volume's clusters. */
    method LinkOrError(cl: nat, ghost i: nat) returns (r: nat)
      requires Base() && if i < |chain| then cl == chain[i] else i == |chain| && cl == fs.g.nFatent && MarkFollows()
      modifies fs`disk, fs`winsect, fs`wflag, fs.win
      ensures Base() && Over() == old(Over()) && fs.Fat() == old(fs.Fat()) && MarkFollows() == old(MarkFollows())
      ensures r <= 1 <==> i == |chain|
      ensures i + 1 < |chain| ==> r == chain[i + 1] && r < fs.g.nFatent
      ensures i + 1 == |chain| ==> r >= fs.g.nFatent && (r == cl + 1 <==> MarkFollows()) && (r == cl + 1 ==> r == fs.g.nFatent)
    {
      hide Geometry.Ok, Volume.View, OnChain, Clusters, Volume.Valid, Family, Bcs, FatTable;
      if i < |chain| { OwnLink(i); }
      Sizes(fs.g);
      r := fs.GetFat(cl);
      WindowInFat();
    }

    /** Collects one fragment of the chain, from its `i`-th cluster `tcl` on: its length and the
        entry that follows it. */
    method NextFragment(tcl: nat, ghost i: nat) returns (ok: bool, ncl: nat, cl: nat)
      requires Base() && Cursor() && !errFlag && i < |chain| && tcl == chain[i]
      modifies this`errFlag, fs`disk, fs`winsect, fs`wflag, fs.win
      ensures Base() && Cursor() && Over() == old(Over()) && fs.Fat() == old(fs.Fat()) && errFlag == !ok
      ensures !ok ==> MarkFollows()
      ensures ok ==> 0 < ncl && i + ncl <= |chain| && chain[i..i + ncl] == Run(Fragment(ncl, tcl))
      ensures ok && i + ncl < |chain| ==> cl == chain[i + ncl] < fs.g.nFatent && cl != chain[i + ncl - 1] + 1
      ensures ok && i + ncl == |chain| ==> cl >= fs.g.nFatent && !MarkFollows()
    {
      hide Geometry.Ok, Volume.View, Volume.Fat, Volume.Valid, Family, Bcs, OnChain, Clusters, File.Over, CursorAt, EndFollows, Run, Consecutive;
      ok, ncl, cl := true, 0, tcl;
      NoneYet(chain, i, tcl);
      while true
        invariant Base() && Cursor() && Over() == old(Over()) && fs.Fat() == old(fs.Fat())
        invariant MarkFollows() == old(MarkFollows()) && !errFlag
        invariant i + ncl <= |chain| && Consecutive(chain, i, ncl, tcl)
        invariant if i + ncl < |chain| then cl == chain[i + ncl] == tcl + ncl else cl == fs.g.nFatent && MarkFollows()
        decreases |chain| - ncl
      {
        var pcl := cl;
        ghost var n0 := ncl;
        cl := LinkOrError(cl, i + n0);
        if cl <= 1 {
          Abort();
          ok := false;
          return;
        }
        OneMore(chain, i, ncl, tcl);
        ncl := ncl + 1;
        if cl != pcl + 1 {
          RunFound(chain, i, ncl, tcl);
          return;
        }
      }
    }

    /** f_lseek(CREATE_LINKMAP): fills the cluster map. Item 0 of the table comes with the table's
        size and leaves with the number of items needed; no item behind the given size is
        written. */
    method CreateLinkMap() returns (res: FResult)
      requires Base() && Cursor() && !errFlag && fptr <= fsize
      requires cltbl != null && 1 <= cltbl.Length && cltbl[0] <= cltbl.Length
      modifies this`errFlag, this`mapped, cltbl, fs`disk, fs`winsect, fs`wflag, fs.win
      ensures Base() && Over() == old(Over()) && Content() == old(Content()) && fs.Fat() == old(fs.Fat())
      ensures errFlag == MarkFollows() == old(MarkFollows()) && (errFlag <==> res == FrIntErr)
      ensures !errFlag ==> cltbl[0] == 2 + 2 * RunCount(chain)
      ensures !errFlag ==> res == if 2 + 2 * RunCount(chain) <= old(cltbl[0]) then FrOk else FrNotEnoughCore
      ensures res == FrOk ==> Valid() && Expand(mapped) == chain
      ensures forall j :: 0 < j < cltbl.Length && old(cltbl[0]) <= j ==> cltbl[j] == old(cltbl[j])
    {
      hide Geometry.Ok, Volume.View, Volume.Fat, Volume.Valid, Family, Bcs, OnChain, Clusters, File.Over, CursorAt, File.MapOk, Data, Stored, Run, Expand, RunCount;
      EmptyStored(cltbl[..]);
      NothingMapped(chain);
      var tlen: nat, ulen: nat, tbl: nat := cltbl[0], 2, 1;
      ghost var fr: seq<Fragment>, i: nat := [], 0;
      var cl: nat := sclust;
      if cl != 0 {
        ClusterInRange(fs.g, chain, 0);
        assert Mapping(tlen, ulen, tbl, cl, fr, i);
        while true
          invariant Base() && Cursor() && Over() == old(Over()) && fs.Fat() == old(fs.Fat())
          invariant Mapping(tlen, ulen, tbl, cl, fr, i) && i < |chain| && !errFlag
          invariant forall j :: 0 < j < cltbl.Length && tlen <= j ==> cltbl[j] == old(cltbl[j])
          decreases |chain| - i
        {
          var ok;
          ok, ulen, tbl, cl, fr, i := MapStep(tlen, ulen, tbl, cl, fr, i);
          if !ok {
            return FrIntErr;
          }
          if cl >= fs.g.nFatent { break; }
        }
      }
      assert chain[..|chain|] == chain;
      FinishMap(tlen, ulen, tbl, fr);
      res := if ulen <= tlen then FrOk else FrNotEnoughCore;
    }

    /** The map builder stands before the chain's `i`-th cluster `cl`, or behind the chain; the
        fragments `fr` before it are in the table as far as it has room. */
    ghost predicate Mapping(tlen: nat, ulen: nat, tbl: nat, cl: nat, fr: seq<Fragment>, i: nat)
      requires Base() && cltbl != null
      reads this, buf, fs, fs.win, cltbl
    {
      && Walked(chain, fs.g.nFatent, cl, fr, i) && (i == |chain| ==> !MarkFollows())
      && Filling(cltbl[..], tlen, ulen, tbl, fr)
    }

    /** Maps one fragment. */
    method MapStep(tlen: nat, ulen: nat, tbl: nat, cl: nat, ghost fr: seq<Fragment>, ghost i: nat)
      returns (ok: bool, ulen': nat, tbl': nat, cl': nat, ghost fr': seq<Fragment>, ghost i': nat)
      requires Base() && Cursor() && !errFlag && cltbl != null && Mapping(tlen, ulen, tbl, cl, fr, i) && i < |chain|
      modifies this`errFlag, cltbl, fs`disk, fs`winsect, fs`wflag, fs.win
      ensures Base() && Cursor() && Over() == old(Over()) && fs.Fat() == old(fs.Fat()) && errFlag == !ok
      ensures !ok ==> MarkFollows()
      ensures ok ==> Mapping(tlen, ulen', tbl', cl', fr', i') && i < i'
      ensures forall j :: 0 <= j < cltbl.Length && (tlen <= j || j == 0) ==> cltbl[j] == old(cltbl[j])
    {
      hide Geometry.Ok, Volume.View, Volume.Fat, Volume.Valid, Family, File.Base, File.Cursor, File.Over, Filling, Run, EndFollows;
      WalkedAt(chain, fs.g.nFatent, cl, fr, i);
      hide Walked;
      ulen', tbl', cl', fr', i' := ulen, tbl, cl, fr, i;
      var ncl;
      ok, ncl, cl' := NextFragment(cl, i);
      if !ok { return; }
      WalkedMore(chain, fs.g.nFatent, cl, fr, i, ncl, cl');
      ulen', tbl' := StoreFragment(tlen, ulen, tbl, ncl, cl, fr);
      fr', i' := fr + [Fragment(ncl, cl)], i + ncl;
    }

    /** Puts one more fragment into the table when there is room. */
    method StoreFragment(tlen: nat, ulen: nat, tbl: nat, ncl: nat, cl: nat, ghost fr: seq<Fragment>) returns (ulen': nat, tbl': nat)
      requires Base() && Cursor() && cltbl != null && 0 < ncl && Filling(cltbl[..], tlen, ulen, tbl, fr)
      modifies cltbl
      ensures Base() && Cursor() && Over() == old(Over())
      ensures Filling(cltbl[..], tlen, ulen', tbl', fr + [Fragment(ncl, cl)])
      ensures forall j :: 0 <= j < cltbl.Length && (tlen <= j || j == 0) ==> cltbl[j] == old(cltbl[j])
    {
      hide Geometry.Ok, Volume.View, Volume.Fat, Volume.Valid, Family, Bcs, OnChain, Clusters, File.Over, CursorAt, Filling;
      FillingRoom(cltbl[..], tlen, ulen, tbl, fr);
      FillingMore(cltbl[..], tlen, ulen, tbl, fr, ncl, cl);
      ulen', tbl' := ulen + 2, tbl;
      if ulen + 2 <= tlen {
        StoreItems(tbl, ncl, cl);
        tbl' := tbl + 2;
      }
    }

    /** Stores the length and the first cluster of a fragment. */
    method StoreItems(tbl: nat, ncl: nat, tcl: nat)
      requires Base() && cltbl != null && tbl + 1 < cltbl.Length
      modifies cltbl
      ensures Base() && Over() == old(Over())
      ensures cltbl[..] == old(cltbl[..])[tbl := ncl][tbl + 1 := tcl]
    {
      cltbl[tbl] := ncl;
      cltbl[tbl + 1] := tcl;
    }

    /** Stores the number of items needed and, if the table is long enough, the end mark. */
    method FinishMap(tlen: nat, ulen: nat, tbl: nat, ghost fr: seq<Fragment>)
      requires Base() && Cursor() && fptr <= fsize && cltbl != null && tlen <= cltbl.Length && 0 < cltbl.Length
      requires Expand(fr) == chain && ulen == 2 + 2 * |fr|
      requires ulen <= tlen ==> tbl == 1 + 2 * |fr| && Stored(cltbl[..], fr)
      modifies this`mapped, cltbl
      ensures Base() && Cursor() && Over() == old(Over())
      ensures cltbl[0] == ulen && (ulen <= tlen ==> Valid() && mapped == fr)
      ensures forall j :: 0 < j < cltbl.Length && tlen <= j ==> cltbl[j] == old(cltbl[j])
    {
      hide Geometry.Ok, Volume.View, Volume.Fat, Volume.Valid, Family, Bcs, OnChain, Clusters, Data;
      cltbl[0] := ulen;
      if ulen <= tlen {
        cltbl[tbl] := 0;
      }
      mapped := fr;
    }

    /** What f_lseek asks of its caller: a sound file, and in fast seek mode a table that is either
        a map of the file or is to become one. */
    ghost predicate SeekReady(ofs: nat)
      reads this, buf, fs, fs.win, cltbl
    {
      && Base() && fptr <= fsize && (!errFlag ==> Cursor())
      && if cltbl != null && ofs == CREATE_LINKMAP then 1 <= cltbl.Length && cltbl[0] <= cltbl.Length else MapOk()
    }

    /** f_lseek: builds the cluster map, or moves the cursor to the target, clipped at the file
        size in fast seek mode and in read mode, and at the end of the disk in write mode. The
        bytes the file had, and everybody else's, stay. */
    method Lseek(ofs: nat) returns (res: FResult)
      requires SeekReady(ofs) && ofs < 0x1_0000_0000
      modifies fs, fs.win, this`chain, this`sclust, this`clust, this`fptr, this`fsize, this`written
      modifies this`dirty, this`dsect, this`errFlag, this`mapped, buf, cltbl
      ensures Base() && old(chain) <= chain && OthersKept(fs.g, old(Over()), Over(), chain)
      ensures old(errFlag) ==> res == FrIntErr && errFlag && fptr == old(fptr)
      ensures chain != old(chain) ==> NoSpare(fsize)
      ensures old(fsize) <= fsize == Max(old(fsize), fptr) && Content()[..old(fsize)] == old(Content())
      ensures res == FrOk ==> Valid() && !errFlag
      ensures res == FrIntErr <==> errFlag
      ensures cltbl == null ==> errFlag == old(errFlag) && res == if errFlag then FrIntErr else FrOk
      ensures !old(errFlag) && cltbl != null && ofs == CREATE_LINKMAP ==> fptr == old(fptr) && errFlag == old(MarkFollows())
      ensures !errFlag && !old(errFlag) && (cltbl == null || ofs != CREATE_LINKMAP) ==> SeekDone(old(fsize), ofs)
      ensures cltbl != null && ofs != CREATE_LINKMAP ==> mapped == old(mapped) && chain == old(chain)
      ensures cltbl != null && ofs != CREATE_LINKMAP && !old(errFlag) ==>
        res == if Expand(mapped) != chain && fptr > 0 then FrIntErr else FrOk
      ensures old(fs.Counted()) ==> fs.Counted()
      ensures SectorOff(fs.g, fptr) == 0 ==> dirty == old(dirty) && dsect == old(dsect)
    {
      hide Geometry.Ok, Volume.View, Volume.Fat, Volume.Valid, Family, Bcs, OnChain, Clusters, CursorAt, Encodes, Data, OthersKept, DataKept, File.Over, File.NoMoreClusters, File.MarkFollows, Expand;
      KeptFile(fs.g, Over(), Over(), chain, chain, fsize);
      assert Content()[..fsize] == Content();
      if errFlag { return FrIntErr; }
      if cltbl != null {
        if ofs == CREATE_LINKMAP {
          res := CreateLinkMap();
        } else {
          res := FastSeek(ofs);
        }
      } else {
        NormalSeek(ofs);
        res := FrOk;
      }
    }

    /** The cursor stands where a seek to `ofs` in a file of `size` bytes should put it. */
    ghost predicate SeekDone(size: nat, ofs: nat)
      requires Base()
      reads this, buf, fs, fs.win
    {
      var goal := if ofs > size && (cltbl != null || !canWrite) then size else ofs;
      fptr == goal || (canWrite && fptr < goal && NoMoreClusters())
    }

    // ---- truncating ---------------------------------------------------------------------------

    /** What f_truncate leaves fits together: the dirty buffer, and the map. */
    ghost predicate TruncateSafe()
      requires Base()
      reads this, buf, fs, fs.win
    {
      fptr >= fsize || KeptParts(fs.g, chain, ClustersFor(fs.g, fptr), dirty, dsect, cltbl != null, mapped)
    }

    /** f_truncate: cuts the file at the cursor. The clusters the remaining bytes take stay, the
        others become free, and no sector outside the FAT changes. The dirty buffer is neither
        written nor dropped, and neither is the cluster map: the file stays sound exactly when the
        buffer, if it is dirty, belongs to a cluster that is left, and the map, if there is one,
        describes no other. */
    method Truncate() returns (res: FResult)
      requires Valid()
      modifies fs, fs.win, this`chain, this`sclust, this`fsize, this`written
      ensures errFlag || !canWrite ==> res == (if errFlag then FrIntErr else FrDenied) && unchanged(this) && unchanged(fs)
      ensures !errFlag && canWrite ==> res == FrOk && fsize == fptr && fs.Valid()
      ensures !errFlag && canWrite ==> SameOutsideFat(fs.g, old(fs.View()), fs.View())
      ensures !errFlag && canWrite && fptr == old(fsize) ==> chain == old(chain) && fs.Fat() == old(fs.Fat())
      ensures !errFlag && canWrite && fptr < old(fsize) ==>
        ClustersFor(fs.g, fptr) <= |old(chain)| && chain == old(chain)[..ClustersFor(fs.g, fptr)]
      ensures !errFlag && canWrite ==> Family(fs.Fat(), AllChains(chain, others))
      ensures !errFlag && canWrite && fptr < old(fsize) ==> Free(fs.Fat()) == old(Free(fs.Fat())) + (|old(chain)| - |chain|)
      ensures !errFlag && canWrite && old(fs.Counted()) ==> fs.Counted()
      ensures !errFlag && canWrite ==> (Valid() <==> old(TruncateSafe()))
      ensures !errFlag && canWrite && Valid() ==> Content() == old(Content())[..fptr]
    {
      hide Geometry.Ok, Volume.View, Volume.Fat, Volume.Valid, Family, Bcs, OnChain, Clusters, ClusterIx, SectorOf, SectorIx, SectorOff, Data, Encodes, Truncated, Free;
      if errFlag { return FrIntErr; }
      if !canWrite { return FrDenied; }
      res := FrOk;
      assert Content()[..fsize] == Content();
      if fsize > fptr {
        CutFile();
      }
    }

    /** f_truncate for a cursor before the end of the file. */
    method CutFile()
      requires Valid() && !errFlag && fptr < fsize
      modifies fs, fs.win, this`chain, this`sclust, this`fsize, this`written
      ensures fsize == fptr && fs.Valid() && SameOutsideFat(fs.g, old(fs.View()), fs.View())
      ensures ClustersFor(fs.g, fptr) <= |old(chain)| && chain == old(chain)[..ClustersFor(fs.g, fptr)]
      ensures Family(fs.Fat(), AllChains(chain, others))
      ensures Free(fs.Fat()) == old(Free(fs.Fat())) + (|old(chain)| - |chain|)
      ensures old(fs.Counted()) ==> fs.Counted()
      ensures Valid() <==> old(TruncateSafe())
      ensures Valid() ==> Content() == old(Content())[..fptr]
    {
      hide Geometry.Ok, Volume.View, Volume.Fat, Volume.Valid, Family, Bcs, OnChain, Clusters, ClusterIx, SectorOf, SectorIx, SectorOff, Data, Encodes, Truncated, Free, CursorAt, Cleared;
      ghost var keep := ClustersFor(fs.g, fptr);
      ghost var t, c, w, n := fs.Fat(), chain, Over(), fsize;
      ClustersForCeil(fs.g, fptr, |c|);
      ClustersForCeil(fs.g, fptr, keep);
      Sizes(fs.g);
      AllTruncated(t, c, others, keep, Eoc(fs.g.kind));
      NoneInvalid(t, c, keep, Eoc(fs.g.kind));
      CursorKept(fs.g, c, keep, fptr, clust, dsect);
      TruncateFat(keep);
      OutsideFatData(fs.g, old(fs.View()), fs.View());
      DataArea(fs.g, old(fs.View()), fs.View());
      ShorterWindow(fs.g, c, keep, fs.winsect);
      SetSize(keep);
      if dirty ==> OnChain(fs.g, chain, dsect) {
        TruncatedBytes(fs.g, w, Over(), c, keep, fptr, n);
      }
    }

    /** The FAT part of f_truncate. */
    method TruncateFat(ghost keep: nat)
      requires Base() && Cursor() && chain != [] && keep == ClustersFor(fs.g, fptr) && keep <= |chain|
      modifies fs, fs.win, this`sclust
      ensures fs.Valid() && SameOutsideFat(fs.g, old(fs.View()), fs.View())
      ensures fs.g.InFat(fs.winsect) || fs.winsect == old(fs.winsect)
      ensures forall i :: 0 <= i < |chain| ==> chain[i] < fs.g.nFatent
      ensures fs.Fat() == Truncated(old(fs.Fat()), chain, keep, Eoc(fs.g.kind))
      ensures sclust == if keep == 0 then 0 else old(sclust)
      ensures old(fs.Counted()) ==> fs.Counted()
    {
      hide Geometry.Ok, Volume.View, Volume.Valid, Bcs, OnChain, ClusterIx, SectorOf, SectorIx, SectorOff, FatTable, RemoveFrom, Trunc, Cleared, Family, CountZero, Free;
      OwnChain(fs.Fat(), chain, others);
      Sizes(fs.g);
      if fptr == 0 {
        ChainRemoved(fs.Fat(), chain);
        var ok := fs.RemoveChain(sclust);
        sclust := 0;
      } else {
        OwnLink(keep - 1);
        CutBehind(keep);
      }
    }

    /** Makes the `keep`-th cluster of the chain its last one and frees those behind it. */
    method CutBehind(ghost keep: nat)
      requires Base() && 0 < keep <= |chain| && clust == chain[keep - 1] && 2 <= clust < fs.g.nFatent
      requires IsChain(fs.Fat(), chain)
      requires if keep < |chain| then fs.Fat()[clust] == chain[keep] < fs.g.nFatent else fs.Fat()[clust] >= fs.g.nFatent
      modifies fs, fs.win
      ensures fs.Valid() && SameOutsideFat(fs.g, old(fs.View()), fs.View())
      ensures fs.g.InFat(fs.winsect) || fs.winsect == old(fs.winsect)
      ensures fs.Fat() == Truncated(old(fs.Fat()), chain, keep, Eoc(fs.g.kind))
      ensures old(fs.Counted()) ==> fs.Counted()
    {
      hide Geometry.Ok, Volume.View, Volume.Valid, Bcs, OnChain, Clusters, SectorOf, FatTable, RemoveFrom, Trunc, Cleared, Family, CountZero, Free;
      ghost var t, eoc := fs.Fat(), Eoc(fs.g.kind);
      Sizes(fs.g);
      var ncl := fs.GetFat(clust);
      if ncl < fs.g.nFatent {
        ChainCut(t, chain, keep, eoc);
        FreeUpdate(t, clust, eoc);
        var put := fs.PutFat(clust, LAST_LINK);
        var ok := fs.RemoveChain(ncl);
      }
    }

    /** Takes over the shorter size, and the shorter chain. */
    method SetSize(ghost keep: nat)
      requires keep <= |chain|
      modifies this`fsize, this`written, this`chain
      ensures fsize == fptr && written && chain == old(chain)[..keep]
    {
      fsize := fptr;
      written := true;
      chain := chain[..keep];
    }

    /** The FAT entry of the file's `j`-th cluster. */
    lemma OwnLink(j: nat)
      requires Base() && j < |chain|
      ensures 2 <= chain[j] < fs.g.nFatent
      ensures if j + 1 < |chain| then 2 <= fs.Fat()[chain[j]] == chain[j + 1] < fs.g.nFatent else fs.Fat()[chain[j]] >= fs.g.nFatent
    {
      hide Geometry.Ok, Volume.View, Volume.Fat, OnChain, Volume.Valid;
      OwnChain(fs.Fat(), chain, others);
      ChainLink(fs.Fat(), chain, j);
    }

    /** A window over the FAT holds no sector of the file. */
    lemma WindowInFat()
      requires fs.Valid() && fs.g.Ok() && Clusters(fs.g, chain)
      ensures fs.g.InFat(fs.winsect) ==> !OnChain(fs.g, chain, fs.winsect)
    {
      FatEnd(fs.g);
    }
  }
}
