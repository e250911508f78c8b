/** The arithmetic of formatting: where f_mkfs puts the parts of a volume, and how large it makes
    them. Sector counts are 32-bit numbers without sign; the two places where they can wrap say so. */
module FatLayout {
  import opened Arithmetic
  import opened FatGeometry

  const MIN_FAT16 := 4086
  const MIN_FAT32 := 65526
  const N_ROOTDIR := 512
  const SZ_DIR := 32

  function U32(n: int): (r: nat)
    ensures r < 0x1_0000_0000 && (0 <= n < 0x1_0000_0000 ==> r == n)
  {
    n % 0x1_0000_0000
  }

  predicate IsPow2(n: nat) {
    n == 1 || (n > 1 && n % 2 == 0 && IsPow2(n / 2))
  }

  lemma {:induction false} Pow2Div(n: nat, d: nat)
    requires IsPow2(n) && IsPow2(d) && d <= n
    ensures IsPow2(n / d)
    decreases d
  {
    if d > 1 {
      Pow2Div(n / 2, d / 2);
      DivDiv(n, 2, d / 2);
    }
  }

  lemma {:induction false} Pow2Small(n: nat)
    requires IsPow2(n) && n <= 128
    ensures ClusterSizeOk(n)
  {
    if n > 1 {
      Pow2Small(n / 2);
    }
  }

  lemma Powers()
    ensures IsPow2(512) && IsPow2(1024) && IsPow2(2048) && IsPow2(4096)
    ensures IsPow2(8192) && IsPow2(16384) && IsPow2(32768)
  {
    assert IsPow2(2);
    assert IsPow2(4);
    assert IsPow2(8);
    assert IsPow2(16);
    assert IsPow2(32);
    assert IsPow2(64);
    assert IsPow2(128);
    assert IsPow2(256);
    assert IsPow2(512);
    assert IsPow2(1024);
    assert IsPow2(2048);
    assert IsPow2(4096);
    assert IsPow2(8192);
    assert IsPow2(16384);
  }

  /** The sub-type that a number of clusters stands for. */
  function KindOf(clusters: nat): FatKind {
    if clusters >= MIN_FAT32 then Fat32 else if clusters >= MIN_FAT16 then Fat16 else Fat12
  }

  /** Automatic selection of the allocation unit: the first line of the table that the volume is large
      enough for. */
  const Vst: seq<nat> := [1024, 512, 256, 128, 64, 32, 16, 8, 4, 2, 0]
  const Cst: seq<nat> := [32768, 16384, 8192, 4096, 2048, 16384, 8192, 4096, 2048, 1024, 512]

  method SelectUnit(nVol: nat, ss: nat) returns (au: nat)
    requires SectorSizeOk(ss)
    ensures IsPow2(au) && 512 <= au <= 32768
    ensures AutoUnit(nVol, ss, au)
  {
    var vs := nVol / (2000 / (ss / 512));
    var i := 0;
    while vs < Vst[i]
      invariant 0 <= i < |Vst| && forall j :: 0 <= j < i ==> vs < Vst[j]
      decreases |Vst| - i
    {
      i := i + 1;
    }
    assert Selected(vs, i);
    UnitsPow2(i);
    au := Cst[i];
  }

  ghost predicate AutoUnit(nVol: nat, ss: nat, au: nat)
    requires SectorSizeOk(ss)
  {
    exists i: nat :: i < |Vst| && Selected(nVol / (2000 / (ss / 512)), i) && au == Cst[i]
  }

  predicate Selected(vs: nat, i: nat)
    requires i < |Vst|
  {
    Vst[i] <= vs && forall j :: 0 <= j < i ==> vs < Vst[j]
  }

  /** What the table is for, on sectors of 512 bytes: small volumes get at most 4000 clusters, which
      is FAT12, medium ones 32000 to 64000, FAT16, and large ones clusters of 32768 bytes. */
  lemma AutoClusters(nVol: nat, au: nat)
    requires AutoUnit(nVol, 512, au)
    ensures var clusters := nVol / (au / 512);
      && (nVol < 128_000 ==> clusters <= 4000 && (nVol >= 4000 ==> 2000 <= clusters) && KindOf(clusters) == Fat12)
      && (128_000 <= nVol < 2_048_000 ==> 32_000 <= clusters <= 64_000 && KindOf(clusters) == Fat16)
      && (nVol >= 2_048_000 ==> au == 32768 && clusters >= 32_000)
  {
    var i: nat :| i < |Vst| && Selected(nVol / 2000, i) && au == Cst[i];
    UnitRow(nVol, i);
  }

  lemma UnitRow(nVol: nat, i: nat)
    requires i < |Vst| && Selected(nVol / 2000, i)
    ensures var clusters := nVol / (Cst[i] / 512);
      && (nVol < 128_000 ==> clusters <= 4000 && (nVol >= 4000 ==> 2000 <= clusters))
      && (128_000 <= nVol < 2_048_000 ==> 32_000 <= clusters <= 64_000)
      && (nVol >= 2_048_000 ==> Cst[i] == 32768 && clusters >= 32_000)
  {
    assert i > 0 ==> nVol / 2000 < Vst[i - 1];
  }

  lemma UnitsPow2(i: nat)
    requires i < |Cst|
    ensures IsPow2(Cst[i]) && 512 <= Cst[i] <= 32768
  {
    Powers();
  }

  /** Sectors per cluster for an allocation unit of `au` bytes. */
  function SectorsPerCluster(au: nat, ss: nat): nat
    requires SectorSizeOk(ss)
  {
    if au / ss == 0 then 1 else if au / ss > 128 then 128 else au / ss
  }

  lemma ClusterSizes(au: nat, ss: nat)
    requires SectorSizeOk(ss) && IsPow2(au)
    ensures ClusterSizeOk(SectorsPerCluster(au, ss))
  {
    SectorPow2(ss);
    UnitOver(au, ss);
    if 0 < au / ss <= 128 {
      Pow2Small(au / ss);
    }
  }

  lemma SectorPow2(ss: nat)
    requires SectorSizeOk(ss)
    ensures IsPow2(ss) && ss > 0
  {
    Powers();
  }

  lemma UnitOver(au: nat, d: nat)
    requires IsPow2(au) && IsPow2(d) && d > 0
    ensures au / d > 0 ==> IsPow2(au / d)
  {
    if d <= au {
      Pow2Div(au, d);
    } else {
      DivModUnique(au, d, 0, au);
    }
  }

  /** The parts of a volume: `bVol` is its first sector, `nVol` its size, `nRsv`, `nFat` and `nDir` the
      sizes of the reserved sectors, of the FAT and of the root directory; `nClst` is the number of
      clusters that f_mkfs computes. */
  datatype Layout = Layout(kind: FatKind, csize: nat, bVol: nat, nVol: nat, nRsv: nat, nFat: nat, nDir: nat, nClst: nat)
  {
    function Fat(): nat { bVol + nRsv }
    function Dir(): nat { Fat() + nFat }
    function Data(): nat { Dir() + nDir }
  }

  /** The end of what f_mkfs writes: a FAT32 root directory is a cluster. */
  function End(l: Layout): nat {
    l.Data() + if l.kind == Fat32 then l.csize else 0
  }

  datatype Planned = TooSmall | Planned(layout: Layout)

  /** The bytes that f_mkfs reckons for the FAT of `clusters` clusters. */
  function FatNeed(kind: FatKind, clusters: nat): nat {
    match kind
    case Fat32 => clusters * 4 + 8
    case Fat16 => clusters * 2 + 4
    case Fat12 => (clusters * 3 + 1) / 2 + 3
  }

  function FatSectors(kind: FatKind, clusters: nat, ss: nat): nat
    requires SectorSizeOk(ss)
  {
    U32(FatNeed(kind, clusters) + ss - 1) / ss
  }

  function Reserved(kind: FatKind): nat {
    if kind == Fat32 then 32 else 1
  }

  function RootSectors(kind: FatKind, ss: nat): nat
    requires SectorSizeOk(ss)
  {
    if kind == Fat32 then 0 else N_ROOTDIR * SZ_DIR / ss
  }

  /** The next multiple of the erase block size; a drive that does not know it, or says something
      impossible, counts as one with blocks of one sector. */
  function BlockSize(block: nat): (n: nat)
    ensures n > 0
  {
    if block == 0 || block > 32768 then 1 else block
  }

  function NextMultiple(at: nat, n: nat): (r: nat)
    requires n > 0
    ensures at <= r < at + n && r % n == 0
  {
    DivModSplit(at + n - 1, n);
    var q := (at + n - 1) / n;
    DivModUnique(q * n, n, q, 0);
    q * n
  }

  /** How many clusters fit into so many sectors. */
  function Clusters(sectors: nat, csize: nat): nat
    requires csize > 0
  {
    sectors / csize
  }

  /** The layout of a volume of `nVol` sectors from `bVol` on, with clusters of `csize` sectors and one
      copy of the FAT. The data area starts at a multiple of the erase block size. */
  function Plan(bVol: nat, nVol: nat, csize: nat, ss: nat, block: nat): Planned
    requires SectorSizeOk(ss) && csize > 0
  {
    var clusters := Clusters(nVol, csize);
    var kind := KindOf(clusters);
    var nFat := FatSectors(kind, clusters, ss);
    var bData := bVol + Reserved(kind) + nFat + RootSectors(kind, ss);
    if nVol < bData + csize then TooSmall else
    var n := NextMultiple(bData, BlockSize(block)) - bData;
    Final(if kind == Fat32 then Layout(kind, csize, bVol, nVol, Reserved(kind) + n, nFat, RootSectors(kind, ss), 0)
          else Layout(kind, csize, bVol, nVol, Reserved(kind), nFat + n, RootSectors(kind, ss), 0))
  }

  /** The last step: the number of clusters, and whether the sub-type still agrees. */
  function Final(l: Layout): Planned
    requires l.csize > 0
  {
    var n := Clusters(U32(l.nVol - l.nRsv - l.nFat - l.nDir), l.csize);
    if (l.kind == Fat16 && n < MIN_FAT16) || (l.kind == Fat32 && n < MIN_FAT32) then TooSmall
    else Planned(l.(nClst := n))
  }

  // ---- what a planned layout keeps --------------------------------------------------------------------

  /** The system areas leave something of the volume, so that the subtraction did not wrap. */
  predicate Fits(l: Layout) {
    l.nRsv + l.nFat + l.nDir <= l.nVol
  }

  lemma UpDiv(need: nat, ss: nat)
    requires SectorSizeOk(ss) && need > 0
    ensures var q := (need + ss - 1) / ss;
      need <= q * ss && 0 < q <= need / 512 + 1
  {
  }

  lemma Needed(kind: FatKind, clusters: nat, n: nat)
    requires n <= clusters < 0x1000_0000 && kind == KindOf(clusters)
    ensures RequiredFatBytes(kind, n + 2) <= FatNeed(kind, clusters) < 0x4000_0008
    ensures FatNeed(kind, clusters) > 0 && (kind != Fat32 ==> FatNeed(kind, clusters) <= 131054)
  {
  }

  /** The FAT is as small as it can be for entries 0 and 1 and one entry for each of `clusters`
      clusters. */
  lemma FatExact(kind: FatKind, clusters: nat, ss: nat)
    requires SectorSizeOk(ss) && clusters < 0x1000_0000
    ensures FatNeed(kind, clusters) == RequiredFatBytes(kind, clusters + 2)
    ensures (FatSectors(kind, clusters, ss) - 1) * ss < RequiredFatBytes(kind, clusters + 2) <= FatSectors(kind, clusters, ss) * ss
  {
    var need := FatNeed(kind, clusters);
    SameNeed(kind, clusters);
    hide FatNeed, RequiredFatBytes;
    DivModSplit(need + ss - 1, ss);
    MulStep(FatSectors(kind, clusters, ss), ss);
  }

  lemma SameNeed(kind: FatKind, clusters: nat)
    requires clusters < 0x1000_0000
    ensures 0 < FatNeed(kind, clusters) == RequiredFatBytes(kind, clusters + 2) < 0x4000_0009
  {
    if kind == Fat12 {
      var h, r := clusters / 2, clusters % 2;
      SameNeed12(h, r);
    }
  }

  lemma SameNeed12(h: nat, r: nat)
    requires r < 2
    ensures ((2 * h + r) * 3 + 1) / 2 + 3 == (2 * h + r + 2) * 3 / 2 + (2 * h + r + 2) % 2
  {
    if r == 0 {
      assert (6 * h + 1) / 2 == 3 * h;
    } else {
      assert (6 * h + 4) / 2 == 3 * h + 2 && (6 * h + 9) / 2 == 3 * h + 4;
    }
  }

  /** The FAT has room for entries 0 and 1 and one entry for each of `n` clusters. */
  lemma FatHasRoom(kind: FatKind, clusters: nat, n: nat, ss: nat)
    requires SectorSizeOk(ss) && n <= clusters < 0x1000_0000 && kind == KindOf(clusters)
    ensures RequiredFatBytes(kind, n + 2) <= FatSectors(kind, clusters, ss) * ss
    ensures 0 < FatSectors(kind, clusters, ss) < 0x100_0000
    ensures kind != Fat32 ==> FatSectors(kind, clusters, ss) <= 257
  {
    hide FatNeed, RequiredFatBytes, KindOf;
    Needed(kind, clusters, n);
    UpDiv(FatNeed(kind, clusters), ss);
  }

  /** The parts of a plan. */
  lemma PlanParts(bVol: nat, nVol: nat, csize: nat, ss: nat, block: nat) returns (l: Layout, n: nat)
    requires SectorSizeOk(ss) && csize > 0 && Plan(bVol, nVol, csize, ss, block).Planned?
    ensures l == Plan(bVol, nVol, csize, ss, block).layout && n < BlockSize(block)
    ensures l.kind == KindOf(Clusters(nVol, csize)) && l.bVol == bVol && l.nVol == nVol && l.csize == csize
    ensures l.nRsv == Reserved(l.kind) + (if l.kind == Fat32 then n else 0)
    ensures l.nFat == FatSectors(l.kind, Clusters(nVol, csize), ss) + (if l.kind == Fat32 then 0 else n)
    ensures l.nDir == RootSectors(l.kind, ss)
    ensures l.Data() % BlockSize(block) == 0
    ensures l.nClst == Clusters(U32(nVol - l.nRsv - l.nFat - l.nDir), csize)
    ensures (l.kind == Fat16 ==> l.nClst >= MIN_FAT16) && (l.kind == Fat32 ==> l.nClst >= MIN_FAT32)
  {
    hide FatSectors, Clusters;
    l := Plan(bVol, nVol, csize, ss, block).layout;
    var bData := bVol + Reserved(l.kind) + FatSectors(l.kind, Clusters(nVol, csize), ss) + l.nDir;
    n := NextMultiple(bData, BlockSize(block)) - bData;
  }

  lemma FewerClusters(a: nat, b: nat, csize: nat)
    requires a <= b && csize > 0
    ensures Clusters(a, csize) <= Clusters(b, csize)
  {
    DivMono(a, b, csize);
  }

  /** What formatting promises of its layout: the data area begins at a multiple of the block size,
      the FAT has room for all clusters, and the number of clusters agrees with the sub-type. */
  lemma PlanSound(bVol: nat, nVol: nat, csize: nat, ss: nat, block: nat) returns (l: Layout)
    requires SectorSizeOk(ss) && csize > 0 && nVol < 0x1_0000_0000 && Clusters(nVol, csize) < 0x1000_0000
    requires Plan(bVol, nVol, csize, ss, block).Planned?
    ensures l == Plan(bVol, nVol, csize, ss, block).layout
    ensures l.bVol == bVol && l.nVol == nVol && l.csize == csize && l.nDir == RootSectors(l.kind, ss)
    ensures l.Data() % BlockSize(block) == 0 && 0 < l.nRsv < 0x1_0000 && 0 < l.nFat
    ensures (l.kind != Fat32 ==> l.nFat < 0x1_0000) && l.nFat < 0x1_0000_0000 && (l.kind == Fat32 ==> l.nRsv >= 32)
    ensures Fits(l) ==>
      && l.nClst == Clusters(nVol - l.nRsv - l.nFat - l.nDir, csize) && l.nClst <= Clusters(nVol, csize)
      && KindOf(l.nClst) == l.kind && RequiredFatBytes(l.kind, l.nClst + 2) <= l.nFat * ss
  {
    hide FatSectors, RequiredFatBytes, Plan, Clusters, NextMultiple;
    var n;
    l, n := PlanParts(bVol, nVol, csize, ss, block);
    FatHasRoom(l.kind, Clusters(nVol, csize), 0, ss);
    if Fits(l) {
      FewerClusters(nVol - l.nRsv - l.nFat - l.nDir, nVol, csize);
      FatHasRoom(l.kind, Clusters(nVol, csize), l.nClst, ss);
      MulMono(FatSectors(l.kind, Clusters(nVol, csize), ss), l.nFat, ss);
    }
  }
}
