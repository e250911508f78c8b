/** The layout of a mounted FAT volume, and the volume content the driver maintains,
    seen as a sequence of sectors.

    Sizes and cluster numbers are 32-bit in the driver; `Geometry.Ok` keeps every one of
    them far below the wrap-around point. Bytes are integers 0..255, so the driver's
    nibble masks and shifts are written with `/` and `%` by powers of two. */
module FatGeometry {
  import opened Bytes
  import opened Arithmetic

  type Sector = seq<Byte>

  datatype FatKind = Fat12 | Fat16 | Fat32

  /** `kind` is fs_type, `ss` the sector size, `csize` the sectors per cluster, `fsize` the
      sectors per FAT copy, `total` the number of sectors of the drive. */
  datatype Geometry = Geometry(
    kind: FatKind, ss: nat, csize: nat, nFats: nat, nFatent: nat,
    fsize: nat, fatbase: nat, database: nat, total: nat)
  {
    predicate Ok() {
      && SectorSizeOk(ss)
      && ClusterSizeOk(csize)
      && 1 <= nFats <= 2
      && 3 <= nFatent <= MaxFatent(kind)
      && 1 <= fatbase
      && RequiredFatBytes(kind, nFatent) <= fsize * ss
      && fatbase + nFats * fsize <= database
      && database + (nFatent - 2) * csize <= total
    }

    /** Sector `s` belongs to the first FAT copy. */
    predicate InFat(s: int) {
      fatbase <= s < fatbase + fsize
    }

    /** Sector `s` belongs to some FAT copy. */
    predicate InFatArea(s: int) {
      fatbase <= s < fatbase + if nFats == 2 then 2 * fsize else fsize
    }
  }

  predicate SectorSizeOk(ss: nat) {
    ss == 512 || ss == 1024 || ss == 2048 || ss == 4096
  }

  predicate ClusterSizeOk(csize: nat) {
    csize == 1 || csize == 2 || csize == 4 || csize == 8 || csize == 16 || csize == 32 || csize == 64 || csize == 128
  }

  /** The sub-type boundaries bound the number of FAT entries. */
  function MaxFatent(kind: FatKind): nat {
    match kind
    case Fat12 => 4087
    case Fat16 => 65527
    case Fat32 => 0x0FFF_FFF7
  }

  /** The size of a FAT with `n` entries, in bytes. */
  function RequiredFatBytes(kind: FatKind, n: nat): nat {
    match kind
    case Fat12 => n * 3 / 2 + n % 2
    case Fat16 => n * 2
    case Fat32 => n * 4
  }

  /** A FAT entry holds this many values. */
  function EntryRange(kind: FatKind): nat {
    match kind
    case Fat12 => 0x1000
    case Fat16 => 0x1_0000
    case Fat32 => 0x1000_0000
  }

  /** What put_fat keeps of a 32-bit value. */
  function Trunc(kind: FatKind, val: nat): (r: nat)
    ensures r < EntryRange(kind)
  {
    val % EntryRange(kind)
  }

  const LAST_LINK := 0x0FFF_FFFF

  /** Every sector of the drive has the same size. */
  predicate WellSized(g: Geometry, v: seq<Sector>) {
    |v| == g.total && forall s :: 0 <= s < |v| ==> |v[s]| == g.ss
  }

  /** All FAT copies carry the same bytes. */
  ghost predicate CopiesAgree(g: Geometry, v: seq<Sector>)
    requires g.Ok() && |v| == g.total
  {
    FatEnd(g);
    g.nFats == 2 ==> forall s :: g.InFat(s) ==> v[s] == v[s + g.fsize]
  }

  /** The drive with the contents `buf` put over sector `w`, and over the same sector of the
      second FAT copy when `w` lies in the first. */
  function Overlay(g: Geometry, v: seq<Sector>, w: nat, buf: Sector): (r: seq<Sector>)
    requires g.Ok() && |v| == g.total && w < g.total
    ensures |r| == |v|
  {
    if g.nFats == 2 && w < g.fatbase + g.fsize then
      FatEnd(g);
      v[w := buf][w + g.fsize := buf]
    else v[w := buf]
  }

  lemma FatEnd(g: Geometry)
    requires g.Ok()
    ensures g.fatbase + 2 * g.fsize <= g.total || g.nFats == 1
    ensures 1 <= g.database < g.total
    ensures g.fatbase + g.nFats * g.fsize <= g.database && g.fatbase + g.fsize <= g.database
  {
    assert (g.nFatent - 2) * g.csize >= 1;
  }

  lemma Sizes(g: Geometry)
    requires g.Ok()
    ensures 512 <= g.ss && 1 <= g.csize && 1 <= g.database < g.total && 3 <= g.nFatent <= MaxFatent(g.kind)
  {
    FatEnd(g);
  }

  /** Sector and offset of a FAT byte: constant divisors once the sector size is known. */
  lemma SectorSplit(ss: nat, k: nat)
    requires SectorSizeOk(ss)
    ensures k == (k / ss) * ss + k % ss
    ensures 0 <= k % ss < ss
  {
  }

  lemma SectorBelow(ss: nat, k: nat, n: nat)
    requires SectorSizeOk(ss) && k < n * ss
    ensures k / ss < n
  {
  }

  /** The first sector of a cluster, 0 for a number outside the volume. */
  function Clust2Sect(g: Geometry, clst: nat): (s: nat)
    requires g.Ok()
    ensures 2 <= clst < g.nFatent ==> g.database <= s && s + g.csize <= g.total
    ensures s == 0 <==> !(2 <= clst < g.nFatent)
  {
    if clst < 2 || clst - 2 >= g.nFatent - 2 then 0
    else
      assert (clst - 2) * g.csize + g.csize <= (g.nFatent - 2) * g.csize by {
        assert (clst - 2) * g.csize + g.csize == (clst - 1) * g.csize;
        MulMono(clst - 1, g.nFatent - 2, g.csize);
      }
      assert (clst - 2) * g.csize >= 0;
      (clst - 2) * g.csize + g.database
  }

  /** Cluster 2 begins the data area, and each cluster follows the one before it. */
  lemma ClustersFollow(g: Geometry)
    requires g.Ok()
    ensures Clust2Sect(g, 2) == g.database
    ensures forall c :: 2 <= c && c + 1 < g.nFatent ==> Clust2Sect(g, c + 1) == Clust2Sect(g, c) + g.csize
  {
    forall c | 2 <= c && c + 1 < g.nFatent
      ensures Clust2Sect(g, c + 1) == Clust2Sect(g, c) + g.csize
    {
      MulStep(c - 2, g.csize);
    }
  }

  /** Every sector of the data area up to the end of the last cluster belongs to a cluster. */
  lemma ClusterOfSector(g: Geometry, s: nat) returns (c: nat, i: nat)
    requires g.Ok() && g.database <= s < g.database + (g.nFatent - 2) * g.csize
    ensures 2 <= c < g.nFatent && i < g.csize && s == Clust2Sect(g, c) + i
  {
    DivModSplit(s - g.database, g.csize);
    DivBound(s - g.database, g.csize, g.nFatent - 2);
    c, i := 2 + (s - g.database) / g.csize, (s - g.database) % g.csize;
  }

  /** Distinct sectors of clusters have distinct numbers. */
  lemma SectorsDistinct(g: Geometry, c: nat, i: nat, d: nat, j: nat)
    requires g.Ok() && 2 <= c < g.nFatent && 2 <= d < g.nFatent && i < g.csize && j < g.csize
    requires Clust2Sect(g, c) + i == Clust2Sect(g, d) + j
    ensures c == d && i == j
  {
    DivModUnique((c - 2) * g.csize + i, g.csize, c - 2, i);
    DivModUnique((d - 2) * g.csize + j, g.csize, d - 2, j);
  }

  /** The `i`-th run of `ss` bytes of `x` (empty past the end). */
  function Chunk(x: seq<Byte>, ss: nat, i: nat): seq<Byte> {
    if (i + 1) * ss <= |x| then
      assert i * ss <= (i + 1) * ss by { MulStep(i, ss); }
      x[i * ss..(i + 1) * ss]
    else []
  }

  /** Adding one sector to a run of sectors. */
  lemma ChunkAppend(x: seq<Byte>, ss: nat, n: nat, y: Sector)
    requires |x| == n * ss && |y| == ss
    ensures |x + y| == (n + 1) * ss
    ensures Chunk(x + y, ss, n) == y
    ensures forall i: nat :: i < n ==> Chunk(x + y, ss, i) == Chunk(x, ss, i)
  {
    MulStep(n, ss);
    forall i: nat | i < n
      ensures Chunk(x + y, ss, i) == Chunk(x, ss, i)
    {
      MulMono(i + 1, n, ss);
      MulStep(i, ss);
    }
  }

  lemma ChunkSize(x: seq<Byte>, ss: nat, n: nat, i: nat)
    requires |x| == n * ss && i < n
    ensures |Chunk(x, ss, i)| == ss
  {
    MulMono(i + 1, n, ss);
    MulStep(i, ss);
  }

  /** `x` with its `d`-th run of `ss` bytes replaced. */
  function ReplaceChunk(x: seq<Byte>, ss: nat, d: nat, y: seq<Byte>): (r: seq<Byte>)
    requires (d + 1) * ss <= |x| && |y| == ss
    ensures |r| == |x|
  {
    MulStep(d, ss);
    x[..d * ss] + y + x[(d + 1) * ss..]
  }

  lemma SliceReplaced(x: seq<Byte>, a: nat, b: nat, y: seq<Byte>, lo: nat, hi: nat)
    requires a <= b <= |x| && |y| == b - a && lo <= hi <= |x|
    requires (lo == a && hi == b) || hi <= a || b <= lo
    ensures (x[..a] + y + x[b..])[lo..hi] == if lo == a && hi == b then y else x[lo..hi]
  {
  }

  lemma ChunkReplaced(x: seq<Byte>, ss: nat, d: nat, y: seq<Byte>, i: nat)
    requires 0 < ss && (d + 1) * ss <= |x| && |y| == ss
    ensures Chunk(ReplaceChunk(x, ss, d, y), ss, i) == if i == d then y else Chunk(x, ss, i)
  {
    var a, b, lo, hi := d * ss, (d + 1) * ss, i * ss, (i + 1) * ss;
    MulStep(d, ss);
    MulStep(i, ss);
    assert i < d ==> hi <= a by { if i < d { MulMono(i + 1, d, ss); } }
    assert d < i ==> b <= lo by { if d < i { MulMono(d + 1, i, ss); } }
    if hi <= |x| {
      SliceReplaced(x, a, b, y, lo, hi);
    }
  }

  lemma ChunksReplaced(x: seq<Byte>, ss: nat, d: nat, y: seq<Byte>)
    requires 0 < ss && (d + 1) * ss <= |x| && |y| == ss
    ensures forall i: nat :: Chunk(ReplaceChunk(x, ss, d, y), ss, i) == if i == d then y else Chunk(x, ss, i)
  {
    forall i: nat
      ensures Chunk(ReplaceChunk(x, ss, d, y), ss, i) == if i == d then y else Chunk(x, ss, i)
    {
      ChunkReplaced(x, ss, d, y, i);
    }
  }
}
