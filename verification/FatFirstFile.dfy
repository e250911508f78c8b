/** A drive that has been formatted, mounted as a volume of the driver, with a first file on it. */
module FatFirstFile {
  import opened Wrappers
  import opened Bytes
  import opened FatGeometry
  import opened FatInfo
  import opened FatView
  import opened FatChain
  import opened FatFresh
  import opened FatLayout
  import opened FatMount
  import opened FatFormat
  import opened FatVolume
  import opened FatFile
  import opened FatSession
  import FileData

  /** The chains of a new volume: that of a FAT32 root directory. */
  function FirstChains(kind: FatKind): seq<seq<nat>> {
    if kind == Fat32 then [[2]] else []
  }

  /** A volume with no chain but that of a FAT32 root directory, and no invalid entry. */
  ghost predicate Unused(fs: Volume)
    reads fs, fs.win
  {
    && fs.Valid() && fs.winsect == 0
    && Family(fs.Fat(), FirstChains(fs.g.kind))
    && (forall c :: 2 <= c < fs.g.nFatent ==> fs.Fat()[c] != 1)
  }

  /** Everything else is free, and on FAT32 that is counted. */
  ghost predicate OthersFree(fs: Volume)
    requires fs.Valid()
    reads fs, fs.win
  {
    && Free(fs.Fat()) == fs.g.nFatent - 2 - |FirstChains(fs.g.kind)|
    && fs.freeClust == if fs.g.kind == Fat32 then Free(fs.Fat()) else NOT_COUNTED
  }

  /** chk_mounted makes a volume of a formatted drive: its content is that of the drive, its FAT is
      empty, and on FAT32 the free clusters are counted. */
  method MountFormatted(v: seq<Sector>, ghost l: Layout, ss: nat, ghost sfd: bool, ghost serial: nat) returns (fs: Volume)
    requires Laid(l, ss, |v|) && l.nClst > 0 && Written(v, l, ss, sfd, serial)
    requires forall s :: 0 <= s < |v| ==> |v[s]| == ss
    requires Mounted(v, ss) == Some(MountOf(l, ss, |v|))
    ensures fresh(fs) && fresh(fs.win) && Unused(fs) && OthersFree(fs) && fs.g == GeometryOf(l, ss, |v|) && fs.View() == v
  {
    hide Laid, Written, Mounted, Family, Free, FatTable, Geometry.Ok, Volume.View, FreshEntry;
    Facts(v, l, ss, sfd, serial);
    var m := Mounted(v, ss).value;
    var hints := if m.hints.Some? then m.hints.value else Hints(NOT_COUNTED, 0);
    fs := new Volume(m.g, v, m.fsInfo, hints.last, hints.free);
  }

  /** What MountFormatted needs to know of the drive. */
  lemma Facts(v: seq<Sector>, l: Layout, ss: nat, sfd: bool, serial: nat)
    requires Laid(l, ss, |v|) && l.nClst > 0 && Written(v, l, ss, sfd, serial)
    requires forall s :: 0 <= s < |v| ==> |v[s]| == ss
    ensures SectorSizeOk(ss) && |v| > 0 && U32(l.nClst - 1) == l.nClst - 1
    ensures l.kind == Fat32 ==> l.nRsv > 7
    ensures var g := GeometryOf(l, ss, |v|);
      && g.Ok() && WellSized(g, v) && CopiesAgree(g, v) && Family(FatTable(g, v), FirstChains(l.kind))
      && Free(FatTable(g, v)) == g.nFatent - 2 - |FirstChains(l.kind)|
      && (forall c :: 2 <= c < g.nFatent ==> FatTable(g, v)[c] != 1)
  {
    hide Family, Free, FatTable, Geometry.Ok, Boot, PartitionTable, Info, FirstSector, RequiredFatBytes;
    WrittenIsEmpty(v, l, ss, sfd, serial);
  }

  /** The root directory where the mounted volume looks for it, a cluster on FAT32, is what f_mkfs has
      cleared. */
  lemma RootIsEmpty(v: seq<Sector>, l: Layout, ss: nat, sfd: bool, serial: nat)
    requires Laid(l, ss, |v|) && l.nClst > 0 && Written(v, l, ss, sfd, serial)
    ensures var m := MountOf(l, ss, |v|);
      && m.g.Ok()
      && (l.kind == Fat32 ==> Clust2Sect(m.g, m.dirbase) == m.g.database == l.Dir())
      && (l.kind == Fat32 ==> forall s :: l.Dir() <= s < l.Dir() + m.g.csize ==> v[s] == Zeros(ss))
      && (l.kind != Fat32 ==> m.dirbase + 512 * 32 / ss == m.g.database)
      && (l.kind != Fat32 ==> forall s :: m.dirbase <= s < m.g.database ==> v[s] == Zeros(ss))
  {
    GeometryIsOk(l, ss, |v|);
    ClustersFollow(GeometryOf(l, ss, |v|));
    hide Geometry.Ok, Boot, PartitionTable, Info, FirstSector, RequiredFatBytes, Zeros, Clust2Sect;
  }

  /** A file without a byte can be opened on a new volume. */
  method FirstFile(fs: Volume) returns (f: File)
    requires Unused(fs)
    ensures fresh(f) && fresh(f.buf) && f.fs == fs && Sound(f) && Seen(f).data == [] && Seen(f).pos == 0
    ensures f.canRead && f.canWrite && f.cltbl == null && f.Over() == fs.View()
  {
    hide Family, Free, FatTable, Geometry.Ok, Volume.View, Volume.Fat, Volume.Valid;
    NothingOnChain(fs);
    f := new File(fs, 0, 0, true, true, [], FirstChains(fs.g.kind));
  }

  lemma NothingOnChain(fs: Volume)
    requires fs.Valid()
    ensures FileData.Clusters(fs.g, []) && !FileData.OnChain(fs.g, [], fs.winsect) && fs.g.Ok()
  {
  }

  /** Formats a drive, mounts it and opens a first file, on which any run of FatSession can start. It
      succeeds whenever the formatted volume has a cluster, and no more than FAT32 has numbers for. */
  method FormatAndOpen(d: Drive, sfd: bool, au: nat, ss: nat, block: nat, serial: nat)
      returns (r: Result, csize: nat, f: File?)
    requires SectorSizeOk(ss) && d.Sized(ss, |d.sectors|) && |d.sectors| < 0x1_0000_0000
    requires block == 0 || block > 32768 || IsPow2(block)
    modifies d
    ensures ClusterSizeOk(csize) && (f != null <==>
      r.Done? && r.layout.nClst > 0 && Clusters(r.layout.nVol, csize) <= 0x0FFF_FFF5)
    ensures f != null ==> fresh(f) && fresh(f.fs) && f.canRead && f.canWrite && f.cltbl == null
    ensures f != null ==> Sound(f) && Seen(f).data == [] && Seen(f).pos == 0 && f.Over() == d.sectors
  {
    hide Laid, Written, Mounted, Plan, MountOf, Unused, OthersFree, Sound, File.Over, Clusters, IsPow2;
    r, csize := d.Mkfs(sfd, au, ss, block, serial);
    f := null;
    if r.Done? && r.layout.nClst > 0 && Clusters(r.layout.nVol, csize) <= 0x0FFF_FFF5 {
      var fs := MountFormatted(d.sectors, r.layout, ss, sfd, serial);
      f := FirstFile(fs);
    }
  }
}
