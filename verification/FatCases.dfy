/** Two short runs on a small volume after which an open file is not sound: the buffer that f_truncate
    leaves behind, and the end mark that the map builder takes for a cluster. */
module FatCases {
  import opened Arithmetic
  import opened Bytes
  import opened FatGeometry
  import opened FatPacking
  import opened FatView
  import opened FatChain
  import opened FileData
  import opened ClusterMap
  import opened FatVolume
  import opened FatFile

  /** A FAT12 volume: the boot sector, one FAT sector, one of the root directory, and the clusters 2
      and 3 of one sector each. */
  const SMALL := Geometry(Fat12, 512, 1, 1, 4, 1, 1, 3, 5)

  /** A FAT in which cluster 3 follows cluster 2, and holds the end mark `last`. */
  function FatImage(last: nat): (s: Sector)
    requires last < 0x1000
    ensures |s| == 512
  {
    [0xF8, 0xFF, 0xFF, 0x03, last % 16 * 16, last / 16] + seq(506, _ => 0)
  }

  function Blank(): (s: Sector)
    ensures |s| == 512
  {
    seq(512, _ => 0)
  }

  function Drive(last: nat): (d: seq<Sector>)
    requires last < 0x1000
    ensures WellSized(SMALL, d) && CopiesAgree(SMALL, d)
  {
    [Blank(), FatImage(last), Blank(), Blank(), Blank()]
  }

  /** The entries of the two clusters. */
  lemma Entries(last: nat)
    requires last < 0x1000
    ensures FatTable(SMALL, Drive(last))[2] == 3 && FatTable(SMALL, Drive(last))[3] == last
  {
    var d := Drive(last);
    hide FatBytes;
    FatByteAt(SMALL, d, 0, 3);
    FatByteAt(SMALL, d, 0, 4);
    FatByteAt(SMALL, d, 0, 5);
  }

  /** Both clusters are one file's. */
  lemma OneFile(last: nat)
    requires 4 <= last < 0x1000
    ensures Clusters(SMALL, [2, 3]) && Family(FatTable(SMALL, Drive(last)), AllChains([2, 3], []))
    ensures forall c :: 2 <= c < 4 ==> FatTable(SMALL, Drive(last))[c] != 1
    ensures !OnChain(SMALL, [2, 3], 0)
  {
    Entries(last);
    var t := FatTable(SMALL, Drive(last));
    hide FatTable, Drive;
    assert IsChain(t, [2, 3]);
  }

  /** The file of two clusters, just opened. */
  method OpenSmall(last: nat) returns (f: File)
    requires 4 <= last < 0x1000
    ensures fresh(f) && fresh(f.fs) && fresh(f.buf) && fresh(f.fs.win)
    ensures f.Valid() && f.fs.g == SMALL && f.chain == [2, 3] && f.fsize == 1024 && f.fptr == 0
    ensures f.canWrite && !f.errFlag && f.cltbl == null && f.fs.Fat()[3] == last
  {
    hide Volume.Valid, Family, FatTable, Drive, OnChain, Data, ClusterIx, SectorIx;
    var fs := new Volume(SMALL, Drive(last), 0, 0, 0);
    Entries(last);
    OneFile(last);
    f := new File(fs, 2, 1024, true, true, [2, 3], []);
  }

  /** The file as it is between the steps of the run: sound, of the same two clusters and 1024 bytes. */
  ghost predicate Small(f: File)
    reads f, f.buf, f.fs, f.fs.win, f.cltbl
  {
    && f.Valid() && f.fs.g == SMALL && f.chain == [2, 3] && f.fsize == 1024
    && f.canWrite && !f.errFlag && f.cltbl == null
  }

  /** A seek inside the file ends where it should. */
  method SeekInside(f: File, ofs: nat)
    requires Small(f) && 0 < ofs < 1024
    modifies f, f.buf, f.fs, f.fs.win
    ensures Small(f) && f.fptr == ofs
    ensures ofs == 512 ==> f.dirty == old(f.dirty) && f.dsect == old(f.dsect)
  {
    hide File.Base, File.Cursor, File.Over, File.Content, File.NoFree, Volume.Valid, OthersKept, SectorIx, ClusterIx;
    var res := f.Lseek(ofs);
    if f.NoMoreClusters() { f.CursorAtEnd(); }
    SameClusters(f.chain, 1024);
  }

  /** A byte written inside the file. */
  method WriteInside(f: File, b: Byte)
    requires Small(f) && f.fptr == 512
    modifies f, f.buf, f.fs, f.fs.win
    ensures Small(f) && f.fptr == 513 && f.dirty
  {
    hide File.Base, File.Cursor, File.Over, File.NoFree, Volume.Valid, OthersKept, SectorIx, ClusterIx, Splice;
    ghost var was := f.Content();
    var res, bw := f.Write([b]);
    assert |f.Content()| == |Splice(was, 512, [b][..bw])|;
    if f.NoMoreClusters() { f.CursorAtEnd(); }
    SameClusters(f.chain, 1024);
  }

  lemma SameClusters(c: seq<nat>, size: nat)
    requires [2, 3] <= c && size <= 1024 && (c != [2, 3] ==> (|c| - 1) * Bcs(SMALL) < size)
    ensures c == [2, 3]
  {
    if |c| > 2 {
      MulMono(2, |c| - 1, 512);
    }
    assert c[..2] == [2, 3];
  }

  /** A byte is written into the second cluster, and the file is cut where that cluster begins. The
      buffer still waits to be written into the cluster that the file no longer has. */
  method StaleBuffer(b: Byte) returns (f: File, res: FResult)
    ensures fresh(f) && f.fs.Valid() && f.fs.g == SMALL && res == FrOk
    ensures f.chain == [2] && f.fptr == f.fsize == 512
    ensures f.dirty && !OnChain(SMALL, f.chain, f.dsect) && !f.Valid()
  {
    hide File.Base, File.Over, File.Content, File.NoFree, Volume.Valid, Family, OnChain;
    f := OpenSmall(0xFFF);
    SeekInside(f, 512);
    WriteInside(f, b);
    BufferedSector(f);
    SeekInside(f, 512);
    FirstOnly();
    res := f.Truncate();
  }

  /** A cursor inside the second cluster has the sector of that cluster in the buffer. */
  lemma BufferedSector(f: File)
    requires Small(f) && f.fptr == 513
    ensures f.dsect == 4
  {
    hide File.Base, Volume.Valid;
  }

  lemma FirstOnly()
    ensures ClustersFor(SMALL, 512) == 1 && !OnChain(SMALL, [2], 4) && [2, 3][..1] == [2]
  {
    ClustersForCeil(SMALL, 512, 1);
    ClustersForCeil(SMALL, 512, 0);
  }

  /** The end mark of the file is the number behind its last cluster. The map builder follows it, finds
      no such cluster, and gives the file up. */
  method UnmappedChain() returns (f: File, res: FResult)
    ensures fresh(f) && f.Base() && f.fs.g == SMALL && res == FrIntErr && f.errFlag
  {
    hide File.Base, File.Over, File.Content, File.NoFree, Volume.Valid, Family, OnChain;
    f := OpenSmall(4);
    var table := new nat[8](_ => 8);
    GiveTable(f, table);
    res := f.Lseek(CREATE_LINKMAP);
  }

  /** The user of the file provides the table for a map. */
  method GiveTable(f: File, table: array<nat>)
    requires Small(f) && table.Length == 8 && table[0] == 8
    modifies f`cltbl
    ensures f.cltbl == table && f.Base() && f.Cursor() && f.fs.Fat() == old(f.fs.Fat())
  {
    f.cltbl := table;
  }
}
