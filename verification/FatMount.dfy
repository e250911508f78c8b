/** Mounting: how chk_mounted finds the volume on a drive and derives its layout from the boot record. */
module FatMount {
  import opened Wrappers
  import opened Bytes
  import opened Arithmetic
  import opened FatGeometry
  import opened FatInfo
  import opened FatLayout

  const BPB_BYTS_PER_SEC := 11
  const BPB_SEC_PER_CLUS := 13
  const BPB_RSVD_SEC_CNT := 14
  const BPB_NUM_FATS := 16
  const BPB_ROOT_ENT_CNT := 17
  const BPB_TOT_SEC16 := 19
  const BPB_FAT_SZ16 := 22
  const BPB_TOT_SEC32 := 32
  const BPB_FAT_SZ32 := 36
  const BPB_ROOT_CLUS := 44
  const BPB_FS_INFO := 48
  const BS_FIL_SYS_TYPE := 54
  const BS_FIL_SYS_TYPE32 := 82
  const MBR_TABLE := 446

  /** "FAT" as a little-endian number. */
  const FAT_TAG := 0x54_4146

  datatype Found = FatRecord | OtherRecord | NoRecord

  predicate Tagged(b: Sector, at: nat)
    requires at + 4 <= |b|
  {
    LdDword(b, at) % 0x100_0000 == FAT_TAG
  }

  /** check_fs. */
  function CheckFs(b: Sector): Found
    requires |b| >= 512
  {
    if LdWord(b, BS_55AA) != 0xAA55 then NoRecord
    else if Tagged(b, BS_FIL_SYS_TYPE) || Tagged(b, BS_FIL_SYS_TYPE32) then FatRecord
    else OtherRecord
  }

  /** Where the volume starts: sector 0 is its boot record, or else a partition table. */
  function VolumeStart(v: seq<Sector>): Option<nat>
    requires |v| > 0 && forall s :: 0 <= s < |v| ==> |v[s]| >= 512
  {
    match CheckFs(v[0])
    case FatRecord => Some(0)
    case NoRecord => None
    case OtherRecord =>
      var at := LdDword(v[0], MBR_TABLE + 8);
      if v[0][MBR_TABLE + 4] != 0 && at < |v| && CheckFs(v[at]) == FatRecord then Some(at) else None
  }

  /** What the boot record says. */
  datatype Bpb = Bpb(bytesPerSector: nat, csize: nat, reserved: nat, fats: nat, rootEntries: nat,
                     sectors: nat, fatSectors: nat, rootCluster: nat, fsInfo: nat)

  function ReadBpb(b: Sector): Bpb
    requires |b| >= 512
  {
    Bpb(LdWord(b, BPB_BYTS_PER_SEC), b[BPB_SEC_PER_CLUS], LdWord(b, BPB_RSVD_SEC_CNT), b[BPB_NUM_FATS],
        LdWord(b, BPB_ROOT_ENT_CNT),
        if LdWord(b, BPB_TOT_SEC16) != 0 then LdWord(b, BPB_TOT_SEC16) else LdDword(b, BPB_TOT_SEC32),
        if LdWord(b, BPB_FAT_SZ16) != 0 then LdWord(b, BPB_FAT_SZ16) else LdDword(b, BPB_FAT_SZ32),
        LdDword(b, BPB_ROOT_CLUS), LdWord(b, BPB_FS_INFO))
  }

  /** The layout that a boot record in sector `bsect` describes, if chk_mounted accepts it. */
  function Analysed(p: Bpb, ss: nat, bsect: nat, total: nat): Option<Geometry>
    requires SectorSizeOk(ss)
  {
    if p.bytesPerSector != ss || !(p.fats == 1 || p.fats == 2) || !IsPow2(p.csize)
      || p.rootEntries % (ss / SZ_DIR) != 0 || p.reserved == 0 then None
    else
      var sysect := U32(p.reserved + U32(p.fatSectors * p.fats) + p.rootEntries / (ss / SZ_DIR));
      if p.sectors < sysect then None else
      var nclst := Clusters(p.sectors - sysect, p.csize);
      if nclst == 0 then None else
      var kind := KindOf(nclst);
      var n := U32(nclst + 2);
      if (kind == Fat32) != (p.rootEntries == 0) || p.fatSectors < SectorsFor(kind, n, ss) then None
      else Some(Geometry(kind, ss, p.csize, p.fats, n, p.fatSectors, U32(bsect + p.reserved), U32(bsect + sysect), total))
  }

  /** The sectors that chk_mounted demands for the FAT. */
  function SectorsFor(kind: FatKind, n: nat, ss: nat): nat
    requires SectorSizeOk(ss)
  {
    U32(U32(RequiredFatBytes(kind, n)) + ss - 1) / ss
  }

  /** The places in the boot record, byte by byte. */
  lemma BpbBytes(b: Sector)
    requires |b| >= 512
    ensures var p := ReadBpb(b);
      && p.bytesPerSector == Number(b[11..13]) && p.csize == b[13] && p.reserved == Number(b[14..16]) && p.fats == b[16]
      && p.rootEntries == Number(b[17..19])
      && p.sectors == (if Number(b[19..21]) != 0 then Number(b[19..21]) else Number(b[32..36]))
      && p.fatSectors == (if Number(b[22..24]) != 0 then Number(b[22..24]) else Number(b[36..40]))
      && p.rootCluster == Number(b[44..48]) && p.fsInfo == Number(b[48..50])
  {
    hide Number, Word, Dword;
    Number2(b[11..13]);
    Number2(b[14..16]);
    Number2(b[17..19]);
    Number2(b[19..21]);
    Number2(b[22..24]);
    Number4(b[32..36]);
    Number4(b[36..40]);
    Number4(b[44..48]);
    Number2(b[48..50]);
  }

  /** A boot record ends with 0x55 0xAA at 510 and has "FAT" at 54 or 82. */
  lemma BootRecordIs(b: Sector)
    requires |b| >= 512
    ensures CheckFs(b) == NoRecord <==> b[510..512] != [0x55, 0xAA]
    ensures CheckFs(b) == FatRecord <==>
      b[510..512] == [0x55, 0xAA] && (b[54..57] == [0x46, 0x41, 0x54] || b[82..85] == [0x46, 0x41, 0x54])
  {
    var mark: seq<Byte> := [0x55, 0xAA];
    Number2(mark);
    Number2(b[510..512]);
    Signature(b, 510, mark);
    TagIs(b, 54);
    TagIs(b, 82);
  }

  lemma TagIs(b: Sector, at: nat)
    requires at + 4 <= |b|
    ensures Tagged(b, at) <==> b[at..at + 3] == [0x46, 0x41, 0x54]
  {
    var tag: seq<Byte> := [0x46, 0x41, 0x54];
    var x := [b[at], b[at + 1], b[at + 2], 0];
    var y: seq<Byte> := [0x46, 0x41, 0x54, 0];
    Number4(x);
    Number4(y);
    assert LdDword(b, at) == Dword(b[at], b[at + 1], b[at + 2], 0) + 0x100_0000 * (b[at + 3] as nat);
    assert LdDword(b, at) % 0x100_0000 == Number(x) && Number(y) == FAT_TAG;
    if Number(x) == Number(y) {
      NumberUnique(x, y);
    }
    assert b[at..at + 3] == x[..3] && tag == y[..3];
  }

  /** Without a boot record in sector 0, the first line of the partition table says where the volume is:
      it is in use unless byte 450 is zero, and starts at the sector in bytes 454 to 457. */
  lemma FirstPartition(v: seq<Sector>)
    requires |v| > 0 && (forall s :: 0 <= s < |v| ==> |v[s]| >= 512) && CheckFs(v[0]) != FatRecord
    ensures VolumeStart(v) == if CheckFs(v[0]) == OtherRecord && v[0][450] != 0 && Number(v[0][454..458]) < |v|
                                 && CheckFs(v[Number(v[0][454..458])]) == FatRecord
                              then Some(Number(v[0][454..458])) else None
  {
    hide CheckFs, Number, Dword;
    Number4(v[0][454..458]);
  }

  /** A mounted volume: its layout, the sector or cluster of its root directory, the FSInfo sector of
      FAT32, and the allocation hints, when there are any. */
  datatype Mount = Mount(g: Geometry, dirbase: nat, fsInfo: nat, hints: Option<Hints>)

  function Mounted(v: seq<Sector>, ss: nat): Option<Mount>
    requires SectorSizeOk(ss) && |v| > 0 && forall s :: 0 <= s < |v| ==> |v[s]| == ss
  {
    match VolumeStart(v)
    case None => None
    case Some(bsect) =>
      var p := ReadBpb(v[bsect]);
      match Analysed(p, ss, bsect, |v|)
      case None => None
      case Some(g) =>
        var info := U32(bsect + p.fsInfo);
        Some(Mount(g, if g.kind == Fat32 then p.rootCluster else U32(g.fatbase + g.fsize * g.nFats),
                   if g.kind == Fat32 then info else 0,
                   if g.kind == Fat32 && info < |v| then ReadFsInfo(v[info]) else None))
  }

  // ---- what is accepted ---------------------------------------------------------------------------------

  /** Nothing of the boot record is so large that the 32-bit sums wrap or FAT32 runs out of numbers. */
  predicate Sensible(p: Bpb, bsect: nat) {
    && p.csize < 256 && p.reserved < 0x1_0000 && p.rootEntries < 0x1_0000
    && p.reserved + p.fatSectors * p.fats + p.rootEntries < 0x1_0000_0000
    && bsect + p.sectors < 0x1_0000_0000 && p.csize > 0 && Clusters(p.sectors, p.csize) < 0x0FFF_FFF6
  }

  lemma RootShare(n: nat, ss: nat)
    requires SectorSizeOk(ss) && n % (ss / SZ_DIR) == 0
    ensures n / (ss / SZ_DIR) == n * 32 / ss <= n
  {
  }

  lemma AcceptedUnit(n: nat)
    requires IsPow2(n) && n < 256
    ensures ClusterSizeOk(n)
  {
    if n > 1 {
      Pow2Small(n / 2);
    }
  }

  lemma FatLargeEnough(need: nat, ss: nat, have: nat)
    requires SectorSizeOk(ss) && need < 0x4000_0000 && have >= U32(U32(need) + ss - 1) / ss
    ensures need <= have * ss
  {
    var q := (need + ss - 1) / ss;
    DivModSplit(need + ss - 1, ss);
    MulMono(q, have, ss);
  }

  /** The system areas of an accepted boot record, and the clusters behind them. */
  lemma AcceptedParts(p: Bpb, ss: nat, bsect: nat, total: nat) returns (sysect: nat, n: nat)
    requires SectorSizeOk(ss) && Sensible(p, bsect) && Analysed(p, ss, bsect, total).Some?
    ensures sysect == p.reserved + p.fatSectors * p.fats + p.rootEntries * 32 / ss <= p.sectors
    ensures 0 < n < 0x0FFF_FFF6 && n * p.csize <= p.sectors - sysect < (n + 1) * p.csize
    ensures ClusterSizeOk(p.csize) && p.bytesPerSector == ss && 1 <= p.fats <= 2 && p.reserved > 0
    ensures (KindOf(n) == Fat32 <==> p.rootEntries == 0) && RequiredFatBytes(KindOf(n), n + 2) <= p.fatSectors * ss
    ensures p.rootEntries % (ss / SZ_DIR) == 0
    ensures Analysed(p, ss, bsect, total).value
      == Geometry(KindOf(n), ss, p.csize, p.fats, n + 2, p.fatSectors, bsect + p.reserved, bsect + sysect, total)
  {
    hide RequiredFatBytes, KindOf, IsPow2;
    RootShare(p.rootEntries, ss);
    sysect := p.reserved + p.fatSectors * p.fats + p.rootEntries / (ss / SZ_DIR);
    n := Clusters(p.sectors - sysect, p.csize);
    FewerClusters(p.sectors - sysect, p.sectors, p.csize);
    ClustersFit(p.sectors - sysect, p.csize);
    DivModSplit(p.sectors - sysect, p.csize);
    MulStep(n, p.csize);
    AcceptedUnit(p.csize);
    FatBytesBound(KindOf(n), n + 2);
    FatLargeEnough(RequiredFatBytes(KindOf(n), n + 2), ss, p.fatSectors);
  }

  /** What a boot record must say to be accepted, in numbers: the sector size of the drive, one or two
      FATs, clusters of a power of two sectors, a root directory of whole sectors unless it is FAT32,
      room for a cluster, and a FAT that is large enough. */
  ghost predicate Acceptable(p: Bpb, ss: nat)
    requires SectorSizeOk(ss)
  {
    var sysect := p.reserved + p.fatSectors * p.fats + p.rootEntries * 32 / ss;
    && p.bytesPerSector == ss && 1 <= p.fats <= 2 && ClusterSizeOk(p.csize) && p.reserved > 0
    && p.rootEntries * 32 % ss == 0 && sysect + p.csize <= p.sectors
    && var n := (p.sectors - sysect) / p.csize;
       && (n >= 65526 <==> p.rootEntries == 0)
       && RequiredFatBytes(KindOf(n), n + 2) <= p.fatSectors * ss
  }

  lemma AcceptedExactly(p: Bpb, ss: nat, bsect: nat, total: nat)
    requires SectorSizeOk(ss) && Sensible(p, bsect)
    ensures Analysed(p, ss, bsect, total).Some? <==> Acceptable(p, ss)
  {
    hide RequiredFatBytes, IsPow2, Analysed;
    if Analysed(p, ss, bsect, total).Some? {
      var sysect, n := AcceptedParts(p, ss, bsect, total);
      AcceptableThen(p, ss, sysect, n);
    }
    if Acceptable(p, ss) {
      ThenAccepted(p, ss, bsect, total);
    }
  }

  lemma AcceptableThen(p: Bpb, ss: nat, sysect: nat, n: nat)
    requires SectorSizeOk(ss) && p.csize > 0 && p.rootEntries % (ss / SZ_DIR) == 0
    requires sysect == p.reserved + p.fatSectors * p.fats + p.rootEntries * 32 / ss <= p.sectors
    requires 0 < n && n * p.csize <= p.sectors - sysect < (n + 1) * p.csize
    ensures p.rootEntries * 32 % ss == 0 && sysect + p.csize <= p.sectors && (p.sectors - sysect) / p.csize == n
  {
    WholeSectors(p.rootEntries, ss);
    DivModUnique(p.sectors - sysect, p.csize, n, p.sectors - sysect - n * p.csize);
    MulMono(1, n, p.csize);
  }

  lemma WholeSectors(n: nat, ss: nat)
    requires SectorSizeOk(ss)
    ensures n % (ss / SZ_DIR) == 0 <==> n * 32 % ss == 0
  {
    var d := ss / SZ_DIR;
    DivModSplit(n, d);
    MulAssoc(n / d, d, 32);
    MulSub(n / d * d, n % d, 32);
    DivModUnique(n * 32, ss, n / d, n % d * 32);
  }

  lemma ThenAccepted(p: Bpb, ss: nat, bsect: nat, total: nat)
    requires SectorSizeOk(ss) && Sensible(p, bsect) && Acceptable(p, ss)
    ensures Analysed(p, ss, bsect, total).Some?
  {
    hide RequiredFatBytes, IsPow2, KindOf, Analysed, SectorsFor;
    WholeSectors(p.rootEntries, ss);
    RootShare(p.rootEntries, ss);
    SmallPow2(p.csize);
    var sysect := p.reserved + p.fatSectors * p.fats + p.rootEntries / (ss / SZ_DIR);
    var n := Clusters(p.sectors - sysect, p.csize);
    FewerClusters(p.sectors - sysect, p.sectors, p.csize);
    ClustersFit(p.sectors - sysect, p.csize);
    KindIs(n);
    SectorsEnough(KindOf(n), n + 2, ss, p.fatSectors);
    DivBound(p.sectors - sysect, p.csize, 1);
    TestsPassed(p, ss, bsect, total, sysect, n);
  }

  /** The tests of chk_mounted one by one. */
  lemma TestsPassed(p: Bpb, ss: nat, bsect: nat, total: nat, sysect: nat, n: nat)
    requires SectorSizeOk(ss) && p.bytesPerSector == ss && (p.fats == 1 || p.fats == 2) && IsPow2(p.csize) && p.csize > 0
    requires p.rootEntries % (ss / SZ_DIR) == 0 && p.reserved > 0
    requires sysect == p.reserved + p.fatSectors * p.fats + p.rootEntries / (ss / SZ_DIR) < 0x1_0000_0000
    requires sysect <= p.sectors && n == Clusters(p.sectors - sysect, p.csize) && 0 < n < 0x0FFF_FFF6
    requires (KindOf(n) == Fat32 <==> p.rootEntries == 0) && p.fatSectors >= SectorsFor(KindOf(n), n + 2, ss)
    ensures Analysed(p, ss, bsect, total)
      == Some(Geometry(KindOf(n), ss, p.csize, p.fats, n + 2, p.fatSectors, U32(bsect + p.reserved), U32(bsect + sysect), total))
  {
    hide RequiredFatBytes, IsPow2, KindOf, Clusters, SectorsFor;
  }

  lemma NoClusterLeft(p: Bpb, ss: nat, bsect: nat, total: nat, sysect: nat)
    requires SectorSizeOk(ss) && p.csize > 0
    requires sysect == p.reserved + p.fatSectors * p.fats + p.rootEntries / (ss / SZ_DIR) < 0x1_0000_0000
    requires sysect <= p.sectors && Clusters(p.sectors - sysect, p.csize) == 0
    ensures Analysed(p, ss, bsect, total) == None
  {
    hide RequiredFatBytes, IsPow2, KindOf, Clusters, SectorsFor;
  }

  lemma SectorsEnough(kind: FatKind, n: nat, ss: nat, have: nat)
    requires SectorSizeOk(ss) && n <= 0x0FFF_FFF7 && RequiredFatBytes(kind, n) <= have * ss
    ensures have >= SectorsFor(kind, n, ss)
  {
    FatBytesBound(kind, n);
    FatEnough(RequiredFatBytes(kind, n), ss, have);
    hide RequiredFatBytes;
  }

  lemma KindIs(n: nat)
    ensures KindOf(n) == if n < 4086 then Fat12 else if n < 65526 then Fat16 else Fat32
  {
  }

  /** What chk_mounted accepts: the areas lie one behind the other, as many clusters as fit follow
      them, the sub-type goes by their number, and the FAT is large enough. The layout is sound exactly
      when the clusters lie on the drive, which is not looked at. */
  lemma AcceptedIsSound(p: Bpb, ss: nat, bsect: nat, total: nat)
    requires SectorSizeOk(ss) && Sensible(p, bsect) && Analysed(p, ss, bsect, total).Some?
    ensures var g := Analysed(p, ss, bsect, total).value;
      && g.nFatent > 2 && g.ss == ss == p.bytesPerSector && g.csize == p.csize && g.nFats == p.fats && g.fsize == p.fatSectors
      && g.fatbase == bsect + p.reserved
      && g.database == g.fatbase + p.fatSectors * p.fats + p.rootEntries * 32 / ss
      && g.kind == (if g.nFatent - 2 < 4086 then Fat12 else if g.nFatent - 2 < 65526 then Fat16 else Fat32)
      && (g.kind == Fat32 <==> p.rootEntries == 0)
      && (g.nFatent - 2) * g.csize <= bsect + p.sectors - g.database < (g.nFatent - 1) * g.csize
      && RequiredFatBytes(g.kind, g.nFatent) <= g.fsize * ss
      && (g.Ok() <==> g.database + (g.nFatent - 2) * g.csize <= total)
  {
    hide RequiredFatBytes, Analysed, Clusters;
    var _, _ := AcceptedParts(p, ss, bsect, total);
  }

  /** A boot record for 100 sectors is accepted on a drive of 50, although its clusters do not lie there. */
  lemma OffDrive()
    ensures Analysed(Bpb(512, 1, 1, 1, 16, 100, 1, 0, 0), 512, 0, 50)
      == Some(Geometry(Fat12, 512, 1, 1, 99, 1, 1, 3, 50))
    ensures !Geometry(Fat12, 512, 1, 1, 99, 1, 1, 3, 50).Ok()
  {
    assert RequiredFatBytes(Fat12, 99) == 149;
  }

  // ---- mounting what f_mkfs has laid out ----------------------------------------------------------------

  /** What f_mkfs writes into the boot record; the last two fields mean nothing without FAT32. */
  predicate Describes(p: Bpb, l: Layout, ss: nat) {
    && p.bytesPerSector == ss && p.csize == l.csize && p.reserved == l.nRsv && p.fats == 1
    && p.rootEntries == (if l.kind == Fat32 then 0 else N_ROOTDIR)
    && p.sectors == l.nVol && p.fatSectors == l.nFat
    && (l.kind == Fat32 ==> p.rootCluster == 2 && p.fsInfo == 1)
  }

  /** The volume as chk_mounted should see it. */
  function GeometryOf(l: Layout, ss: nat, total: nat): Geometry {
    Geometry(l.kind, ss, l.csize, 1, l.nClst + 2, l.nFat, l.Fat(), l.Data(), total)
  }

  /** What f_mkfs has laid out within a drive of `total` sectors. */
  predicate Laid(l: Layout, ss: nat, total: nat)
  {
    && SectorSizeOk(ss) && ClusterSizeOk(l.csize) && Fits(l)
    && l.bVol + l.nVol <= total < 0x1_0000_0000
    && 0 < l.nRsv < 0x1_0000 && 0 < l.nFat && l.nDir == RootSectors(l.kind, ss)
    && (l.kind != Fat32 ==> l.nFat < 0x1_0000)
    && l.nClst == Clusters(l.nVol - l.nRsv - l.nFat - l.nDir, l.csize) <= 0x0FFF_FFF5
    && KindOf(l.nClst) == l.kind && RequiredFatBytes(l.kind, l.nClst + 2) <= l.nFat * ss
  }

  lemma SmallPow2(n: nat)
    requires ClusterSizeOk(n)
    ensures IsPow2(n) && n > 0
  {
    assert IsPow2(2);
    assert IsPow2(4);
    assert IsPow2(8);
    assert IsPow2(16);
    assert IsPow2(32);
    assert IsPow2(64);
  }

  lemma RootDivides(ss: nat)
    requires SectorSizeOk(ss)
    ensures N_ROOTDIR % (ss / SZ_DIR) == 0 && N_ROOTDIR / (ss / SZ_DIR) == N_ROOTDIR * SZ_DIR / ss > 0
    ensures 0 % (ss / SZ_DIR) == 0 == 0 / (ss / SZ_DIR)
  {
  }

  lemma FatEnough(need: nat, ss: nat, have: nat)
    requires SectorSizeOk(ss) && need <= have * ss && need < 0x4000_0000
    ensures have >= U32(U32(need) + ss - 1) / ss
  {
  }

  lemma FatBytesBound(kind: FatKind, n: nat)
    requires n <= 0x0FFF_FFF7
    ensures RequiredFatBytes(kind, n) < 0x4000_0000
  {
  }

  lemma ClustersFit(sectors: nat, csize: nat)
    requires csize > 0
    ensures Clusters(sectors, csize) * csize <= sectors
    ensures Clusters(sectors, csize) == 0 <==> sectors < csize
  {
    DivModSplit(sectors, csize);
    DivBound(sectors, csize, 1);
  }

  /** chk_mounted derives the sub-type and the number of clusters that f_mkfs chose, and accepts the
      FAT as large enough; only a volume without any cluster is refused. */
  lemma LaidIsAccepted(p: Bpb, l: Layout, ss: nat, total: nat)
    requires Laid(l, ss, total) && Describes(p, l, ss)
    ensures Analysed(p, ss, l.bVol, total)
      == if l.nClst == 0 then None else Some(GeometryOf(l, ss, total))
  {
    hide RequiredFatBytes, Clusters, IsPow2, KindOf, Analysed, SectorsFor;
    SmallPow2(l.csize);
    RootDivides(ss);
    assert p.rootEntries / (ss / SZ_DIR) == l.nDir;
    var sysect := l.nRsv + l.nFat + l.nDir;
    if l.nClst == 0 {
      NoClusterLeft(p, ss, l.bVol, total, sysect);
    } else {
      KindIs(l.nClst);
      SectorsEnough(l.kind, l.nClst + 2, ss, l.nFat);
      TestsPassed(p, ss, l.bVol, total, sysect, l.nClst);
    }
  }

  lemma GeometryIsOk(l: Layout, ss: nat, total: nat)
    requires Laid(l, ss, total) && l.nClst > 0
    ensures GeometryOf(l, ss, total).Ok()
  {
    hide RequiredFatBytes, Clusters;
    ClustersFit(l.nVol - l.nRsv - l.nFat - l.nDir, l.csize);
  }
}
