/** A file's bytes on the volume: the chain of clusters laid out sector by sector, and what the
    writing of sectors or parts of sectors does to the byte sequence. */
module FileData {
  import opened Bytes
  import opened Arithmetic
  import opened FatGeometry

  /** The clusters of a file: in range and distinct. */
  ghost predicate Clusters(g: Geometry, chain: seq<nat>) {
    && (forall i :: 0 <= i < |chain| ==> 2 <= chain[i] < g.nFatent)
    && (forall i, j :: 0 <= i < j < |chain| ==> chain[i] != chain[j])
  }

  /** Number of bytes in a cluster. */
  function Bcs(g: Geometry): (b: nat)
    ensures 0 < g.csize && 0 < g.ss ==> 0 < b
  {
    g.csize * g.ss
  }

  /** The index, in its chain, of the cluster that holds byte `p` of a file. */
  function ClusterIx(g: Geometry, p: nat): nat
    requires g.Ok()
  {
    DivModSplit(p, Bcs(g));
    p / Bcs(g)
  }

  /** The index of the file sector that holds byte `p`, and the byte's offset there. */
  function SectorIx(g: Geometry, p: nat): nat
    requires g.Ok()
  {
    p / g.ss
  }

  /** The number of whole sectors in `n` bytes. */
  function WholeSectors(g: Geometry, n: nat): (cc: nat)
    requires g.Ok()
    ensures cc == 0 <==> n < g.ss
    ensures cc * g.ss <= n < (cc + 1) * g.ss
  {
    DivModSplit(n, g.ss);
    MulStep(n / g.ss, g.ss);
    assert n / g.ss > 0 ==> (n / g.ss) * g.ss >= g.ss by { if n / g.ss > 0 { MulMono(1, n / g.ss, g.ss); } }
    n / g.ss
  }

  /** Joining two neighbouring slices. */
  lemma SliceJoin(c: seq<Byte>, a: nat, b: nat, d: nat)
    requires a <= b <= d <= |c|
    ensures c[a..b] + c[b..d] == c[a..d]
  {
  }

  /** The sector's offset inside its cluster: `p / ss & (csize - 1)` in the driver. */
  function ClusterOff(g: Geometry, p: nat): (i: nat)
    requires g.Ok()
    ensures i < g.csize
  {
    p / g.ss % g.csize
  }

  function SectorOff(g: Geometry, p: nat): (off: nat)
    requires g.Ok()
    ensures off < g.ss
  {
    p % g.ss
  }

  /** The drive sector that holds sector `k` of the file. */
  function SectorOf(g: Geometry, chain: seq<nat>, k: nat): (s: nat)
    requires g.Ok() && Clusters(g, chain) && k < |chain| * g.csize
    ensures g.database <= s < g.total
  {
    DivBound(k, g.csize, |chain|);
    DivModSplit(k, g.csize);
    Clust2Sect(g, chain[k / g.csize]) + k % g.csize
  }

  /** Distinct file sectors lie on distinct drive sectors. */
  lemma SectorOfDistinct(g: Geometry, chain: seq<nat>, k: nat, j: nat)
    requires g.Ok() && Clusters(g, chain) && k < |chain| * g.csize && j < |chain| * g.csize
    requires SectorOf(g, chain, k) == SectorOf(g, chain, j)
    ensures k == j
  {
    DivBound(k, g.csize, |chain|);
    DivBound(j, g.csize, |chain|);
    DivModSplit(k, g.csize);
    DivModSplit(j, g.csize);
    SectorsDistinct(g, chain[k / g.csize], k % g.csize, chain[j / g.csize], j % g.csize);
  }

  /** Byte `p` of the file, when the drive content is `w`. */
  function DataByte(g: Geometry, w: seq<Sector>, chain: seq<nat>, p: nat): (b: Byte)
    requires g.Ok() && WellSized(g, w) && Clusters(g, chain) && p < |chain| * Bcs(g)
  {
    Capacity(g, chain, p);
    w[SectorOf(g, chain, SectorIx(g, p))][SectorOff(g, p)]
  }

  lemma SectorAt(g: Geometry, chain: seq<nat>, m: nat, i: nat)
    requires g.Ok() && Clusters(g, chain) && m < |chain| && i < g.csize
    ensures m * g.csize + i < |chain| * g.csize
    ensures SectorOf(g, chain, m * g.csize + i) == Clust2Sect(g, chain[m]) + i
  {
    DivModUnique(m * g.csize + i, g.csize, m, i);
    DivBound(m * g.csize + i, g.csize, |chain|);
  }

  /** Where a byte of a file is: byte `off` of the `i`-th sector of the `m`-th cluster of its chain. */
  lemma ByteAt(g: Geometry, w: seq<Sector>, chain: seq<nat>, m: nat, i: nat, off: nat)
    requires g.Ok() && WellSized(g, w) && Clusters(g, chain) && m < |chain| && i < g.csize && off < g.ss
    ensures var p := (m * g.csize + i) * g.ss + off;
      && p < |chain| * Bcs(g)
      && Clust2Sect(g, chain[m]) + i < |w|
      && DataByte(g, w, chain, p) == w[Clust2Sect(g, chain[m]) + i][off]
  {
    hide Geometry.Ok, Bcs;
    var k := m * g.csize + i;
    SectorAt(g, chain, m, i);
    Sizes(g);
    DivModUnique(k * g.ss + off, g.ss, k, off);
    Capacity(g, chain, k * g.ss + off);
  }

  lemma Capacity(g: Geometry, chain: seq<nat>, p: nat)
    requires g.Ok()
    ensures p < |chain| * Bcs(g) <==> SectorIx(g, p) < |chain| * g.csize
    ensures p < |chain| * Bcs(g) <==> ClusterIx(g, p) < |chain|
  {
    MulAssoc(|chain|, g.csize, g.ss);
    DivBound(p, g.ss, |chain| * g.csize);
    DivBound(p, Bcs(g), |chain|);
  }

  /** The first `n` bytes of the file. */
  function Data(g: Geometry, w: seq<Sector>, chain: seq<nat>, n: nat): (d: seq<Byte>)
    requires g.Ok() && WellSized(g, w) && Clusters(g, chain) && n <= |chain| * Bcs(g)
    ensures |d| == n
  {
    seq(n, p requires 0 <= p < n => DataByte(g, w, chain, p))
  }

  /** `c` with `x` written over it from position `p` on, growing where `x` runs past the end. */
  function Splice(c: seq<Byte>, p: nat, x: seq<Byte>): (r: seq<Byte>)
    requires p <= |c|
    ensures |r| == if p + |x| > |c| then p + |x| else |c|
  {
    c[..p] + x + if p + |x| < |c| then c[p + |x|..] else []
  }

  lemma SpliceTwice(c: seq<Byte>, p: nat, x: seq<Byte>, y: seq<Byte>)
    requires p <= |c|
    ensures Splice(Splice(c, p, x), p + |x|, y) == Splice(c, p, x + y)
  {
  }

  /** Two drives that agree on the data area hold the same file. */
  lemma DataGrown(g: Geometry, w: seq<Sector>, w': seq<Sector>, chain: seq<nat>, chain': seq<nat>, n: nat)
    requires g.Ok() && WellSized(g, w) && WellSized(g, w') && Clusters(g, chain) && Clusters(g, chain')
    requires chain <= chain' && n <= |chain| * Bcs(g)
    requires forall s :: g.database <= s < g.total ==> w[s] == w'[s]
    ensures n <= |chain'| * Bcs(g)
    ensures Data(g, w', chain', n) == Data(g, w, chain, n)
  {
    hide Geometry.Ok, Clusters, DataByte;
    MulMono(|chain|, |chain'|, Bcs(g));
    forall p | 0 <= p < n
      ensures DataByte(g, w', chain', p) == DataByte(g, w, chain, p)
    {
      GrownByte(g, w, w', chain, chain', p);
    }
  }

  lemma GrownByte(g: Geometry, w: seq<Sector>, w': seq<Sector>, chain: seq<nat>, chain': seq<nat>, p: nat)
    requires g.Ok() && WellSized(g, w) && WellSized(g, w') && Clusters(g, chain) && Clusters(g, chain')
    requires chain <= chain' && p < |chain| * Bcs(g) && p < |chain'| * Bcs(g)
    requires forall s :: g.database <= s < g.total ==> w[s] == w'[s]
    ensures DataByte(g, w', chain', p) == DataByte(g, w, chain, p)
  {
    hide Geometry.Ok, Bcs, SectorIx, SectorOff, Clusters, Clust2Sect;
    Capacity(g, chain, p);
    Capacity(g, chain', p);
    var k, off, m, i := Place(g, p);
    assert k < |chain| * g.csize && k < |chain'| * g.csize && m < |chain|;
    assert SectorOf(g, chain', k) == SectorOf(g, chain, k);
  }

  /** Sectors `k` to `k + c` of the file have been given the bytes `x`; the rest of the file's
      sectors stay. */
  ghost predicate SectorsStored(g: Geometry, w: seq<Sector>, w': seq<Sector>, chain: seq<nat>, k: nat, c: nat, x: seq<Byte>)
    requires g.Ok() && WellSized(g, w) && WellSized(g, w') && Clusters(g, chain)
  {
    && |x| == c * g.ss
    && k + c <= |chain| * g.csize
    && (forall j :: 0 <= j < |chain| * g.csize ==> (
          if k <= j < k + c then w'[SectorOf(g, chain, j)] == Chunk(x, g.ss, j - k)
          else w'[SectorOf(g, chain, j)] == w[SectorOf(g, chain, j)]))
  }

  lemma StoredByte(g: Geometry, w: seq<Sector>, w': seq<Sector>, chain: seq<nat>, k: nat, c: nat, x: seq<Byte>, q: nat)
    requires g.Ok() && WellSized(g, w) && WellSized(g, w') && Clusters(g, chain)
    requires SectorsStored(g, w, w', chain, k, c, x) && q < |chain| * Bcs(g)
    ensures DataByte(g, w', chain, q) ==
      if k * g.ss <= q < k * g.ss + |x| then x[q - k * g.ss] else DataByte(g, w, chain, q)
  {
    hide Geometry.Ok, SectorOf;
    var ss, j := g.ss, q / g.ss;
    Capacity(g, chain, q);
    DivModSplit(q, ss);
    DivBound(q, ss, k);
    DivBound(q, ss, k + c);
    MulSub(k, c, ss);
    if k <= j < k + c {
      MulSub(j, k, ss);
      MulStep(j - k, ss);
      MulMono(j - k + 1, c, ss);
      assert w'[SectorOf(g, chain, j)] == x[(j - k) * ss..(j - k + 1) * ss];
    }
  }

  /** Storing whole sectors splices their bytes into the file. */
  lemma StoredData(g: Geometry, w: seq<Sector>, w': seq<Sector>, chain: seq<nat>, k: nat, c: nat, x: seq<Byte>, n: nat)
    requires g.Ok() && WellSized(g, w) && WellSized(g, w') && Clusters(g, chain)
    requires SectorsStored(g, w, w', chain, k, c, x) && k * g.ss <= n <= |chain| * Bcs(g)
    ensures Max(n, k * g.ss + |x|) <= |chain| * Bcs(g)
    ensures Data(g, w', chain, Max(n, k * g.ss + |x|)) == Splice(Data(g, w, chain, n), k * g.ss, x)
  {
    hide Geometry.Ok, SectorOf, SectorsStored, DataByte;
    var m := Max(n, k * g.ss + |x|);
    StoredRoom(g, w, w', chain, k, c, x);
    forall q | 0 <= q < m
      ensures Data(g, w', chain, m)[q] == Splice(Data(g, w, chain, n), k * g.ss, x)[q]
    {
      StoredByte(g, w, w', chain, k, c, x, q);
    }
  }

  lemma StoredRoom(g: Geometry, w: seq<Sector>, w': seq<Sector>, chain: seq<nat>, k: nat, c: nat, x: seq<Byte>)
    requires g.Ok() && WellSized(g, w) && WellSized(g, w') && Clusters(g, chain)
    requires SectorsStored(g, w, w', chain, k, c, x)
    ensures k * g.ss + |x| <= |chain| * Bcs(g)
  {
    MulSub(k, c, g.ss);
    MulMono(k + c, |chain| * g.csize, g.ss);
    MulAssoc(|chain|, g.csize, g.ss);
  }

  /** The bytes of file sector `k` from offset `off` on have become `y`, the other sectors of the
      file stay, and so do the other bytes of sector `k` as far as the file's first `n` bytes
      reach. */
  ghost predicate SectorPatched(g: Geometry, w: seq<Sector>, w': seq<Sector>, chain: seq<nat>, n: nat, k: nat, off: nat, y: seq<Byte>)
    requires g.Ok() && WellSized(g, w) && WellSized(g, w') && Clusters(g, chain)
  {
    && k < |chain| * g.csize
    && off + |y| <= g.ss
    && (var s := SectorOf(g, chain, k);
        && (forall i :: off <= i < off + |y| ==> w'[s][i] == y[i - off])
        && (forall i :: 0 <= i < g.ss && !(off <= i < off + |y|) && k * g.ss + i < n ==> w'[s][i] == w[s][i]))
    && (forall j :: 0 <= j < |chain| * g.csize && j != k ==> (
          w'[SectorOf(g, chain, j)] == w[SectorOf(g, chain, j)]))
  }

  lemma PatchedByte(g: Geometry, w: seq<Sector>, w': seq<Sector>, chain: seq<nat>, n: nat, k: nat, off: nat, y: seq<Byte>, q: nat)
    requires g.Ok() && WellSized(g, w) && WellSized(g, w') && Clusters(g, chain)
    requires SectorPatched(g, w, w', chain, n, k, off, y) && q < |chain| * Bcs(g)
    requires q < n || k * g.ss + off <= q < k * g.ss + off + |y|
    ensures DataByte(g, w', chain, q) ==
      if k * g.ss + off <= q < k * g.ss + off + |y| then y[q - k * g.ss - off] else DataByte(g, w, chain, q)
  {
    hide Geometry.Ok, SectorOf;
    var ss, j := g.ss, q / g.ss;
    Capacity(g, chain, q);
    DivModSplit(q, ss);
    if k * ss <= q < k * ss + ss {
      DivModUnique(q, ss, k, q - k * ss);
    }
  }

  /** Patching one sector splices the bytes into the file. */
  lemma PatchedData(g: Geometry, w: seq<Sector>, w': seq<Sector>, chain: seq<nat>, n: nat, k: nat, off: nat, y: seq<Byte>)
    requires g.Ok() && WellSized(g, w) && WellSized(g, w') && Clusters(g, chain)
    requires SectorPatched(g, w, w', chain, n, k, off, y) && k * g.ss + off <= n <= |chain| * Bcs(g)
    ensures Max(n, k * g.ss + off + |y|) <= |chain| * Bcs(g)
    ensures Data(g, w', chain, Max(n, k * g.ss + off + |y|)) == Splice(Data(g, w, chain, n), k * g.ss + off, y)
  {
    hide Geometry.Ok, SectorOf, SectorPatched, DataByte;
    var m := Max(n, k * g.ss + off + |y|);
    PatchedRoom(g, w, w', chain, n, k, off, y);
    forall q | 0 <= q < m
      ensures Data(g, w', chain, m)[q] == Splice(Data(g, w, chain, n), k * g.ss + off, y)[q]
    {
      PatchedByte(g, w, w', chain, n, k, off, y, q);
    }
  }

  lemma PatchedRoom(g: Geometry, w: seq<Sector>, w': seq<Sector>, chain: seq<nat>, n: nat, k: nat, off: nat, y: seq<Byte>)
    requires g.Ok() && WellSized(g, w) && WellSized(g, w') && Clusters(g, chain)
    requires SectorPatched(g, w, w', chain, n, k, off, y)
    ensures k * g.ss + off + |y| <= |chain| * Bcs(g)
  {
    MulStep(k, g.ss);
    MulMono(k + 1, |chain| * g.csize, g.ss);
    MulAssoc(|chain|, g.csize, g.ss);
  }

  /** Whole sectors read from the drive are a slice of the file. */
  lemma ReadWholeData(g: Geometry, w: seq<Sector>, chain: seq<nat>, k: nat, c: nat, x: seq<Byte>, n: nat)
    requires g.Ok() && WellSized(g, w) && Clusters(g, chain) && n <= |chain| * Bcs(g)
    requires k + c <= |chain| * g.csize && |x| == c * g.ss && k * g.ss + |x| <= n
    requires forall j :: k <= j < k + c ==> Chunk(x, g.ss, j - k) == w[SectorOf(g, chain, j)]
    ensures x == Data(g, w, chain, n)[k * g.ss..k * g.ss + |x|]
  {
    hide Geometry.Ok, SectorOf;
    forall q: nat | q < |x|
      ensures x[q] == DataByte(g, w, chain, k * g.ss + q)
    {
      ReadWholeByte(g, w, chain, k, c, x, q);
    }
  }

  lemma ReadWholeByte(g: Geometry, w: seq<Sector>, chain: seq<nat>, k: nat, c: nat, x: seq<Byte>, q: nat)
    requires g.Ok() && WellSized(g, w) && Clusters(g, chain)
    requires k + c <= |chain| * g.csize && |x| == c * g.ss && q < |x|
    requires forall j :: k <= j < k + c ==> Chunk(x, g.ss, j - k) == w[SectorOf(g, chain, j)]
    ensures k * g.ss + q < |chain| * Bcs(g)
    ensures x[q] == DataByte(g, w, chain, k * g.ss + q)
  {
    hide Geometry.Ok, SectorOf;
    var ss, j, r := g.ss, q / g.ss, q % g.ss;
    DivModSplit(q, ss);
    DivBound(q, ss, c);
    MulSub(k, j, ss);
    DivModUnique(k * ss + q, ss, k + j, r);
    Capacity(g, chain, k * ss + q);
    MulStep(j, ss);
    MulMono(j + 1, c, ss);
    assert w[SectorOf(g, chain, k + j)] == Chunk(x, ss, k + j - k) == x[j * ss..(j + 1) * ss];
    assert Chunk(x, ss, j)[r] == x[q];
  }

  /** Part of a sector is a slice of the file. */
  lemma ReadPartData(g: Geometry, w: seq<Sector>, chain: seq<nat>, k: nat, off: nat, x: seq<Byte>, n: nat)
    requires g.Ok() && WellSized(g, w) && Clusters(g, chain) && n <= |chain| * Bcs(g)
    requires k < |chain| * g.csize && off + |x| <= g.ss && k * g.ss + off + |x| <= n
    requires x == w[SectorOf(g, chain, k)][off..off + |x|]
    ensures x == Data(g, w, chain, n)[k * g.ss + off..k * g.ss + off + |x|]
  {
    hide Geometry.Ok, SectorOf;
    forall q: nat | q < |x|
      ensures x[q] == DataByte(g, w, chain, k * g.ss + off + q)
    {
      Capacity(g, chain, k * g.ss + off + q);
      DivModUnique(k * g.ss + off + q, g.ss, k, off + q);
    }
  }

  // ---- positions ----------------------------------------------------------------------------

  /** Position `p` lies in file sector `k` at offset `off`; that is sector `i` of cluster `m`. */
  lemma Place(g: Geometry, p: nat) returns (k: nat, off: nat, m: nat, i: nat)
    requires g.Ok()
    ensures p == k * g.ss + off && off < g.ss && m == k / g.csize && k == m * g.csize + i && i < g.csize
    ensures k == SectorIx(g, p) && off == SectorOff(g, p) && m == ClusterIx(g, p) && i == ClusterOff(g, p)
    ensures m == p / Bcs(g) && p % Bcs(g) == i * g.ss + off
    ensures p == m * Bcs(g) + i * g.ss + off
    ensures off > 0 || i > 0 ==> p > 0 && ClusterIx(g, p - 1) == m
    ensures off == 0 && i == 0 && p > 0 ==> m > 0 && ClusterIx(g, p - 1) == m - 1
  {
    k, off := p / g.ss, p % g.ss;
    m, i := k / g.csize, k % g.csize;
    PlaceIn(p, g.ss, g.csize, k, off, m, i);
  }

  lemma PlaceIn(p: nat, ss: nat, csize: nat, k: nat, off: nat, m: nat, i: nat)
    requires 0 < ss && 0 < csize
    requires k == p / ss && off == p % ss && m == k / csize && i == k % csize
    ensures p == k * ss + off && off < ss && k == m * csize + i && i < csize
    ensures 0 < csize * ss && m == p / (csize * ss) && p % (csize * ss) == i * ss + off
    ensures p == m * (csize * ss) + i * ss + off
    ensures off > 0 || i > 0 ==> p > 0 && (p - 1) / (csize * ss) == m
    ensures off == 0 && i == 0 && p > 0 ==> m > 0 && (p - 1) / (csize * ss) == m - 1
  {
    var bcs, r := csize * ss, i * ss + off;
    DivModSplit(p, ss);
    DivModSplit(k, csize);
    DivDiv(p, ss, csize);
    assert bcs == ss * csize;
    MulStep(i, ss);
    MulMono(i + 1, csize, ss);
    MulSub(m * csize, i, ss);
    MulAssoc(m, csize, ss);
    if r > 0 {
      DivModUnique(p - 1, bcs, m, r - 1);
    } else if p > 0 {
      MulStep(m, bcs);
      DivModUnique(p - 1, bcs, m - 1, bcs - 1);
    }
  }

  /** Moving on inside a cluster, up to its end, leaves the byte before the position in it. */
  lemma Advance(g: Geometry, p: nat, cnt: nat, m: nat)
    requires g.Ok() && 1 <= cnt && m == ClusterIx(g, p)
    requires p % Bcs(g) + cnt <= Bcs(g)
    ensures ClusterIx(g, p + cnt - 1) == m
  {
    DivModSplit(p, Bcs(g));
    DivModUnique(p + cnt - 1, Bcs(g), m, p % Bcs(g) + cnt - 1);
  }

  lemma AdvanceWhole(g: Geometry, p: nat, cnt: nat)
    requires g.Ok() && 1 <= cnt && p % Bcs(g) + cnt <= Bcs(g) && SectorOff(g, p) == 0 && cnt % g.ss == 0
    ensures ClusterIx(g, p + cnt - 1) == ClusterIx(g, p) && SectorOff(g, p + cnt) == 0
  {
    Advance(g, p, cnt, ClusterIx(g, p));
    DivModSplit(p, g.ss);
    DivModSplit(cnt, g.ss);
    MulSub(p / g.ss, cnt / g.ss, g.ss);
    DivModUnique(p + cnt, g.ss, p / g.ss + cnt / g.ss, 0);
  }

  /** Moving on inside a sector: the position stays in the sector or reaches its end. */
  lemma AdvancePart(g: Geometry, p: nat, cnt: nat)
    requires g.Ok() && 1 <= cnt && SectorOff(g, p) + cnt <= g.ss
    ensures ClusterIx(g, p + cnt - 1) == ClusterIx(g, p)
    ensures SectorOff(g, p + cnt) != 0 ==> SectorIx(g, p + cnt) == SectorIx(g, p)
  {
    var k, off, m, i := Place(g, p);
    MulStep(i, g.ss);
    MulMono(i + 1, g.csize, g.ss);
    Advance(g, p, cnt, m);
    if off + cnt < g.ss {
      DivModUnique(p + cnt, g.ss, k, off + cnt);
    } else {
      MulStep(k, g.ss);
      DivModUnique(p + cnt, g.ss, k + 1, 0);
    }
  }

  /** Sector `s` belongs to a cluster of the file. */
  ghost predicate OnChain(g: Geometry, chain: seq<nat>, s: nat)
    requires g.Ok()
  {
    exists i :: 0 <= i < |chain| && Clust2Sect(g, chain[i]) <= s < Clust2Sect(g, chain[i]) + g.csize
  }

  lemma SectorOnChain(g: Geometry, chain: seq<nat>, k: nat)
    requires g.Ok() && Clusters(g, chain) && k < |chain| * g.csize
    ensures OnChain(g, chain, SectorOf(g, chain, k))
    ensures g.database <= SectorOf(g, chain, k) < g.total
  {
    DivModSplit(k, g.csize);
  }

  /** Sectors `k` to `k + c` of the file, inside cluster `m`, are consecutive on the drive. */
  lemma SectorRun(g: Geometry, chain: seq<nat>, k: nat, m: nat, i: nat, c: nat)
    requires g.Ok() && Clusters(g, chain) && m < |chain| && k == m * g.csize + i && i + c < g.csize
    ensures k + c < |chain| * g.csize
    ensures SectorOf(g, chain, k + c) == Clust2Sect(g, chain[m]) + i + c
  {
    DivModUnique(k + c, g.csize, m, i + c);
    DivBound(k + c, g.csize, |chain|);
  }

  /** A run of `c` sectors of cluster `m`, from its sector `i` on, stays in the cluster. */
  lemma RunFacts(g: Geometry, chain: seq<nat>, k: nat, m: nat, i: nat, c: nat, btr: nat)
    requires g.Ok() && k == m * g.csize + i && i + c <= g.csize && k < |chain| * g.csize && m == k / g.csize
    requires c * g.ss <= btr
    ensures m < |chain| && k + c <= |chain| * g.csize
    ensures c * g.ss <= btr && i * g.ss + c * g.ss <= Bcs(g) && c * g.ss % g.ss == 0
    ensures c > 0 ==> g.ss <= c * g.ss
  {
    DivBound(k, g.csize, |chain|);
    MulStep(m, g.csize);
    MulMono(m + 1, |chain|, g.csize);
    MulSub(i, c, g.ss);
    MulMono(i + c, g.csize, g.ss);
    DivModUnique(c * g.ss, g.ss, c, 0);
    if c > 0 { MulMono(1, c, g.ss); }
  }

  /** The sectors of the run are consecutive on the drive and belong to the file. */
  lemma RunSectors(g: Geometry, chain: seq<nat>, k: nat, m: nat, i: nat, c: nat)
    requires g.Ok() && Clusters(g, chain) && m < |chain| && k == m * g.csize + i && i + c <= g.csize
    requires k + c <= |chain| * g.csize && k < |chain| * g.csize
    ensures forall j :: k <= j < k + c ==> SectorOf(g, chain, j) == SectorOf(g, chain, k) + (j - k)
    ensures SectorOf(g, chain, k) + c <= g.total
  {
    hide SectorOf;
    if c > 0 {
      SectorRun(g, chain, k, m, i, 0);
      forall j | k <= j < k + c
        ensures SectorOf(g, chain, j) == SectorOf(g, chain, k) + (j - k)
      {
        SectorRun(g, chain, k, m, i, j - k);
      }
      assert SectorOf(g, chain, k + (c - 1)) < g.total;
    }
  }

  /** A sector outside the file is not in the run. */
  lemma RunOnChain(g: Geometry, chain: seq<nat>, k: nat, m: nat, i: nat, c: nat, s: nat)
    requires g.Ok() && Clusters(g, chain) && m < |chain| && k == m * g.csize + i && i + c <= g.csize
    requires k + c <= |chain| * g.csize && k < |chain| * g.csize
    requires !OnChain(g, chain, s)
    ensures !(SectorOf(g, chain, k) <= s < SectorOf(g, chain, k) + c)
    ensures SectorOf(g, chain, k) + c <= g.total
  {
    hide SectorOf;
    RunSectors(g, chain, k, m, i, c);
    if SectorOf(g, chain, k) <= s < SectorOf(g, chain, k) + c {
      SectorOnChain(g, chain, k + (s - SectorOf(g, chain, k)));
    }
  }

  /** The place of position `p` in the file, when its cluster is one of the file's. */
  lemma InCluster(g: Geometry, chain: seq<nat>, p: nat)
    requires g.Ok() && Clusters(g, chain) && ClusterIx(g, p) < |chain|
    ensures SectorIx(g, p) < |chain| * g.csize
    ensures SectorOf(g, chain, SectorIx(g, p)) == Clust2Sect(g, chain[ClusterIx(g, p)]) + ClusterOff(g, p)
  {
    hide SectorOf, ClusterIx, ClusterOff, SectorIx, SectorOff, Bcs;
    var k, off, m, i := Place(g, p);
    SectorRun(g, chain, k, m, i, 0);
  }

  lemma SpliceMore(c: seq<Byte>, p: nat, x: seq<Byte>, done: nat, cnt: nat)
    requires p <= |c| && done + cnt <= |x|
    ensures Splice(Splice(c, p, x[..done]), p + done, x[done..][..cnt]) == Splice(c, p, x[..done + cnt])
  {
    SpliceTwice(c, p, x[..done], x[done..][..cnt]);
    assert x[..done] + x[done..][..cnt] == x[..done + cnt];
  }

  lemma DataPrefix(g: Geometry, w: seq<Sector>, chain: seq<nat>, n: nat, n': nat)
    requires g.Ok() && WellSized(g, w) && Clusters(g, chain) && n <= n' <= |chain| * Bcs(g)
    ensures Data(g, w, chain, n')[..n] == Data(g, w, chain, n)
  {
  }

  /** Byte number `r` (from 1) of cluster `m`, or its end: the position behind it. */
  lemma BehindByte(g: Geometry, m: nat, r: nat)
    requires g.Ok() && 1 <= r <= Bcs(g)
    ensures ClusterIx(g, m * Bcs(g) + r - 1) == m
    ensures SectorOff(g, m * Bcs(g) + r) == SectorOff(g, r)
    ensures SectorOff(g, r) != 0 ==> ClusterIx(g, m * Bcs(g) + r) == m && ClusterOff(g, m * Bcs(g) + r) == SectorIx(g, r)
    ensures r == Bcs(g) ==> SectorOff(g, m * Bcs(g) + r) == 0 && ClusterOff(g, m * Bcs(g) + r) == 0
  {
    BehindByteIn(g.ss, g.csize, m, r);
    DivModUnique(m * Bcs(g) + r - 1, Bcs(g), m, r - 1);
    if r < Bcs(g) {
      DivModUnique(m * Bcs(g) + r, Bcs(g), m, r);
    }
  }

  lemma BehindByteIn(ss: nat, csize: nat, m: nat, r: nat)
    requires 0 < ss && 0 < csize && 1 <= r <= csize * ss
    ensures (m * (csize * ss) + r) % ss == r % ss
    ensures r % ss != 0 ==> r < csize * ss && (m * (csize * ss) + r) / ss % csize == r / ss
    ensures r == csize * ss ==> r % ss == 0 && (m * (csize * ss) + r) / ss % csize == 0
  {
    var q, off := r / ss, r % ss;
    DivModSplit(r, ss);
    MulAssoc(m, csize, ss);
    MulSub(m * csize, q, ss);
    DivModUnique(m * (csize * ss) + r, ss, m * csize + q, off);
    if off != 0 {
      DivModUnique(csize * ss, ss, csize, 0);
      DivBound(r, ss, csize);
      DivModUnique(m * csize + q, csize, m, q);
    }
    if r == csize * ss {
      DivModUnique(csize * ss, ss, csize, 0);
      MulStep(m, csize);
      DivModUnique(m * csize + csize, csize, m + 1, 0);
    }
  }

  /** The byte before a position inside a sector lies in the same sector. */
  lemma ByteBefore(g: Geometry, p: nat)
    requires g.Ok() && SectorOff(g, p) != 0
    ensures p > 0 && ClusterIx(g, p) == ClusterIx(g, p - 1) && ClusterOff(g, p) == ClusterOff(g, p - 1)
  {
    var k, off, m, i := Place(g, p);
    DivModUnique(p - 1, g.ss, k, off - 1);
  }

  /** The number of clusters that `n` bytes take. */
  function ClustersFor(g: Geometry, n: nat): nat
    requires g.Ok()
  {
    if n == 0 then 0 else ClusterIx(g, n - 1) + 1
  }

  /** That number is the quotient rounded up: the clusters hold the bytes, one cluster fewer does
      not. */
  lemma ClustersForCeil(g: Geometry, n: nat, m: nat)
    requires g.Ok()
    ensures n <= m * Bcs(g) <==> ClustersFor(g, n) <= m
  {
    if n > 0 {
      DivBound(n - 1, Bcs(g), m);
    }
  }

  /** A target in the cursor's cluster or a later one lies behind that cluster's start. */
  lemma SeekBack(g: Geometry, ofs: nat, p: nat)
    requires g.Ok() && 0 < ofs && 0 < p
    ensures ClusterIx(g, ofs - 1) >= ClusterIx(g, p - 1) ==> ClusterIx(g, p - 1) * Bcs(g) < ofs
  {
    DivModSplit(ofs - 1, Bcs(g));
    if ClusterIx(g, ofs - 1) >= ClusterIx(g, p - 1) {
      MulMono(ClusterIx(g, p - 1), ClusterIx(g, ofs - 1), Bcs(g));
    }
  }

  lemma CursorAtZero(g: Geometry)
    requires g.Ok()
    ensures SectorOff(g, 0) == 0 && ClusterOff(g, 0) == 0 && 0 < Bcs(g)
  {
    var k, off, m, i := Place(g, 0);
  }

  /** A cluster boundary, and how far a chain reaches that has no spare cluster there. */
  lemma BoundaryAt(g: Geometry, p: nat, n: nat)
    requires g.Ok() && SectorOff(g, p) == 0 && ClusterOff(g, p) == 0
    ensures p == ClusterIx(g, p) * Bcs(g)
    ensures 0 < n <= ClusterIx(g, p) + 1 ==> (n - 1) * Bcs(g) <= p
  {
    var k, off, m, i := Place(g, p);
    assert k == m * g.csize && p == k * g.ss;
    MulAssoc(m, g.csize, g.ss);
    if 0 < n <= m + 1 {
      MulMono(n - 1, m, Bcs(g));
    }
  }
}
