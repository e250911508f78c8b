/** Formatting a drive: f_mkfs writes the boot record, an empty FAT, an empty root directory and, for
    FAT32, the FSInfo sector. */
module FatFormat {
  import opened Wrappers
  import opened Bytes
  import opened Arithmetic
  import opened FatGeometry
  import opened FatInfo
  import opened FatLayout
  import opened FatMount
  import opened FatView
  import opened FatChain
  import opened FatFresh

  /** The jump instruction and the OEM name; the label and the name of the file system. */
  const Jump: seq<Byte> := [0xEB, 0xFE, 0x90, 0x4D, 0x53, 0x44, 0x4F, 0x53, 0x35, 0x2E, 0x30]
  const Label32: seq<Byte> :=
    [0x4E, 0x4F, 0x20, 0x4E, 0x41, 0x4D, 0x45, 0x20, 0x20, 0x20, 0x20, 0x46, 0x41, 0x54, 0x33, 0x32, 0x20, 0x20, 0x20]
  const Label16: seq<Byte> :=
    [0x4E, 0x4F, 0x20, 0x4E, 0x41, 0x4D, 0x45, 0x20, 0x20, 0x20, 0x20, 0x46, 0x41, 0x54, 0x20, 0x20, 0x20, 0x20, 0x20]

  /** The fields that all boot records have. */
  function BootCommon(l: Layout, ss: nat, md: Byte): (b: Sector)
    requires ss >= 512 && l.csize < 256
    ensures |b| == ss
  {
    var b := StWord(Overlaid(Zeros(ss), 0, Jump), BPB_BYTS_PER_SEC, ss)[BPB_SEC_PER_CLUS := l.csize];
    var b := StWord(b, BPB_RSVD_SEC_CNT, l.nRsv)[BPB_NUM_FATS := 1];
    var b := StWord(b, BPB_ROOT_ENT_CNT, if l.kind == Fat32 then 0 else N_ROOTDIR);
    var b := if l.nVol < 0x1_0000 then StWord(b, BPB_TOT_SEC16, l.nVol) else StDword(b, BPB_TOT_SEC32, l.nVol);
    StDword(StWord(StWord(b[21 := md], 24, 63), 26, 255), 28, l.bVol)
  }

  function BootFat32(b: Sector, l: Layout, serial: nat): (r: Sector)
    requires |b| >= 512
    ensures |r| == |b|
  {
    var b := StDword(StDword(StDword(b, 67, serial), BPB_FAT_SZ32, l.nFat), BPB_ROOT_CLUS, 2);
    Overlaid(StWord(StWord(b, BPB_FS_INFO, 1), 50, 6)[64 := 0x80][66 := 0x29], 71, Label32)
  }

  function BootFat16(b: Sector, l: Layout, serial: nat): (r: Sector)
    requires |b| >= 512
    ensures |r| == |b|
  {
    Overlaid(StWord(StDword(b, 39, serial), BPB_FAT_SZ16, l.nFat)[36 := 0x80][38 := 0x29], 43, Label16)
  }

  /** The boot record. */
  function Boot(l: Layout, ss: nat, md: Byte, serial: nat): (b: Sector)
    requires ss >= 512 && l.csize < 256
    ensures |b| == ss
  {
    var b := BootCommon(l, ss, md);
    StWord(if l.kind == Fat32 then BootFat32(b, l, serial) else BootFat16(b, l, serial), BS_55AA, 0xAA55)
  }

  // ---- reading the boot record back -----------------------------------------------------------------------

  /** `r` is `b` but for the bytes from `lo` to `hi`. */
  ghost predicate Kept(b: Sector, r: Sector, lo: nat, hi: nat) {
    |r| == |b| && forall i :: 0 <= i < |b| && !(lo <= i < hi) ==> r[i] == b[i]
  }

  lemma WordStored(b: Sector, off: nat, val: nat) returns (r: Sector)
    requires off + 2 <= |b| && val < 0x1_0000
    ensures r == StWord(b, off, val) && LdWord(r, off) == val && Kept(b, r, off, off + 2)
  {
    r := StWord(b, off, val);
  }

  lemma DwordStored(b: Sector, off: nat, val: nat) returns (r: Sector)
    requires off + 4 <= |b|
    ensures r == StDword(b, off, val) && Kept(b, r, off, off + 4)
    ensures val < 0x1_0000_0000 ==> LdDword(r, off) == val
  {
    r := StDword(b, off, val);
    if val < 0x1_0000_0000 {
      LoadStored(b, off, val, off);
    }
  }

  lemma LabelStored(b: Sector, off: nat, x: seq<Byte>) returns (r: Sector)
    requires off + 19 <= |b| && (x == Label32 || x == Label16)
    ensures r == Overlaid(b, off, x) && Kept(b, r, off, off + 19) && Tagged(r, off + 11)
  {
    r := Overlaid(b, off, x);
    assert forall i :: 0 <= i < 19 ==> r[off + i] == r[off..off + 19][i] == x[i];
  }

  lemma CommonReads(l: Layout, ss: nat, md: Byte)
    requires 512 <= ss < 0x1_0000 && l.csize < 256 && l.nRsv < 0x1_0000 && 0 < l.nVol < 0x1_0000_0000
    ensures var b := BootCommon(l, ss, md);
      && LdWord(b, BPB_BYTS_PER_SEC) == ss && b[BPB_SEC_PER_CLUS] == l.csize
      && LdWord(b, BPB_RSVD_SEC_CNT) == l.nRsv && b[BPB_NUM_FATS] == 1
      && LdWord(b, BPB_ROOT_ENT_CNT) == (if l.kind == Fat32 then 0 else N_ROOTDIR)
      && LdWord(b, BPB_FAT_SZ16) == 0
      && l.nVol == if LdWord(b, BPB_TOT_SEC16) != 0 then LdWord(b, BPB_TOT_SEC16) else LdDword(b, BPB_TOT_SEC32)
  {
    hide StWord, StDword, Overlaid, Zeros, Word, Dword;
    var b5 := CommonStart(l, ss);
    ZeroWords();
    var b6;
    if l.nVol < 0x1_0000 {
      b6 := WordStored(b5, BPB_TOT_SEC16, l.nVol);
    } else {
      b6 := DwordStored(b5, BPB_TOT_SEC32, l.nVol);
    }
    var b7 := b6[21 := md];
    var b8 := WordStored(b7, 24, 63);
    var b9 := WordStored(b8, 26, 255);
    var b10 := DwordStored(b9, 28, l.bVol);
    assert b10 == BootCommon(l, ss, md);
  }

  lemma CommonStart(l: Layout, ss: nat) returns (b: Sector)
    requires 512 <= ss < 0x1_0000 && l.csize < 256 && l.nRsv < 0x1_0000
    ensures b == StWord(StWord(StWord(Overlaid(Zeros(ss), 0, Jump), BPB_BYTS_PER_SEC, ss)[BPB_SEC_PER_CLUS := l.csize],
        BPB_RSVD_SEC_CNT, l.nRsv)[BPB_NUM_FATS := 1], BPB_ROOT_ENT_CNT, if l.kind == Fat32 then 0 else N_ROOTDIR)
    ensures LdWord(b, BPB_BYTS_PER_SEC) == ss && b[BPB_SEC_PER_CLUS] == l.csize
    ensures LdWord(b, BPB_RSVD_SEC_CNT) == l.nRsv && b[BPB_NUM_FATS] == 1
    ensures LdWord(b, BPB_ROOT_ENT_CNT) == (if l.kind == Fat32 then 0 else N_ROOTDIR)
    ensures forall i :: BPB_TOT_SEC16 <= i < ss ==> b[i] == 0
  {
    hide StWord, Overlaid, Zeros, Word;
    var b0 := Start(ss);
    var b1 := WordStored(b0, BPB_BYTS_PER_SEC, ss);
    var b2: Sector := b1[BPB_SEC_PER_CLUS := l.csize];
    var b3 := WordStored(b2, BPB_RSVD_SEC_CNT, l.nRsv);
    var b4: Sector := b3[BPB_NUM_FATS := 1];
    b := WordStored(b4, BPB_ROOT_ENT_CNT, if l.kind == Fat32 then 0 else N_ROOTDIR);
  }

  /** The sector is cleared, but for the first 11 bytes. */
  lemma Start(ss: nat) returns (b: Sector)
    requires ss >= 512
    ensures b == Overlaid(Zeros(ss), 0, Jump) && |b| == ss && forall i :: 11 <= i < ss ==> b[i] == 0
  {
    b := Overlaid(Zeros(ss), 0, Jump);
  }

  /** Everything but the size of the FAT stays. */
  ghost predicate SameCommon(b: Sector, r: Sector)
    requires |b| == |r| >= 512
  {
    forall i :: 0 <= i < 36 && i != 22 && i != 23 ==> r[i] == b[i]
  }

  lemma Fat32Reads(b: Sector, l: Layout, serial: nat)
    requires |b| >= 512 && l.nFat < 0x1_0000_0000 && LdWord(b, BPB_FAT_SZ16) == 0
    ensures var r := StWord(BootFat32(b, l, serial), BS_55AA, 0xAA55);
      && SameCommon(b, r) && LdWord(r, BPB_FAT_SZ16) == 0 && LdDword(r, BPB_FAT_SZ32) == l.nFat
      && LdDword(r, BPB_ROOT_CLUS) == 2 && LdWord(r, BPB_FS_INFO) == 1 && CheckFs(r) == FatRecord
  {
    hide StWord, StDword, Overlaid;
    var b1 := DwordStored(b, 67, serial);
    var b2 := DwordStored(b1, BPB_FAT_SZ32, l.nFat);
    var b3 := DwordStored(b2, BPB_ROOT_CLUS, 2);
    var b4 := WordStored(b3, BPB_FS_INFO, 1);
    var b5 := WordStored(b4, 50, 6);
    var b6 := b5[64 := 0x80][66 := 0x29];
    var b7 := LabelStored(b6, 71, Label32);
    var r := WordStored(b7, BS_55AA, 0xAA55);
    assert b7 == BootFat32(b, l, serial);
  }

  lemma Fat16Reads(b: Sector, l: Layout, serial: nat)
    requires |b| >= 512 && l.nFat < 0x1_0000
    ensures var r := StWord(BootFat16(b, l, serial), BS_55AA, 0xAA55);
      && SameCommon(b, r) && LdWord(r, BPB_FAT_SZ16) == l.nFat && CheckFs(r) == FatRecord
  {
    hide StWord, StDword, Overlaid;
    var b1 := DwordStored(b, 39, serial);
    var b2 := WordStored(b1, BPB_FAT_SZ16, l.nFat);
    var b3 := b2[36 := 0x80][38 := 0x29];
    var b4 := LabelStored(b3, 43, Label16);
    var r := WordStored(b4, BS_55AA, 0xAA55);
    assert b4 == BootFat16(b, l, serial);
  }

  lemma BootReads(l: Layout, ss: nat, total: nat, md: Byte, serial: nat)
    requires Laid(l, ss, total) && l.nFat < 0x1_0000_0000
    ensures CheckFs(Boot(l, ss, md, serial)) == FatRecord
    ensures Describes(ReadBpb(Boot(l, ss, md, serial)), l, ss)
  {
    hide BootCommon, BootFat16, BootFat32, CheckFs;
    var b := BootCommon(l, ss, md);
    CommonReads(l, ss, md);
    if l.kind == Fat32 {
      Fat32Reads(b, l, serial);
    } else {
      Fat16Reads(b, l, serial);
    }
  }

  // ---- the partition table and the FSInfo sector ------------------------------------------------------

  /** Bytes 6 and 7 of the table entry: where the partition ends, in cylinders. */
  function EndByte(disk: nat, at: nat): Byte {
    var cylinders := disk / 63 / 255;
    if disk >= 63 * 255 * 1024 then 0xFF
    else if at == 7 then cylinders % 0x100
    else (cylinders / 4 - cylinders / 4 % 64 + 63) % 0x100
  }

  /** The type of the partition. */
  function TableKind(l: Layout): Byte {
    if l.kind == Fat32 then 0x0C else if l.nVol < 0x1_0000 then 0x04 else 0x06
  }

  /** The sector with the partition table. */
  function PartitionTable(l: Layout, ss: nat): (b: Sector)
    requires ss >= 512
    ensures |b| == ss
  {
    TableSector(l, ss, EndByte(l.bVol + l.nVol, 6), EndByte(l.bVol + l.nVol, 7))
  }

  function TableSector(l: Layout, ss: nat, end6: Byte, end7: Byte): (b: Sector)
    requires ss >= 512
    ensures |b| == ss
  {
    var b := StDword(Zeros(ss), MBR_TABLE, 0x0001_0180);
    var b := b[MBR_TABLE + 7 := end7][MBR_TABLE + 6 := end6];
    var b := StDword(b[MBR_TABLE + 5 := 254][MBR_TABLE + 4 := TableKind(l)], MBR_TABLE + 8, 63);
    StWord(StDword(b, MBR_TABLE + 12, l.nVol), BS_55AA, 0xAA55)
  }

  /** A sector with such a table is no boot record. */
  lemma TableFound(b: Sector)
    requires |b| >= 512 && b[510..512] == [0x55, 0xAA] && b[54] == b[82] == 0 && b[450] != 0 && Number(b[454..458]) == 63
    ensures CheckFs(b) == OtherRecord && b[MBR_TABLE + 4] != 0 && LdDword(b, MBR_TABLE + 8) == 63
  {
    hide Number, CheckFs;
    BootRecordIs(b);
    assert b[54..57][0] == 0 && b[82..85][0] == 0;
    LoadsNumber(b, 454);
  }

  /** The line of the partition table, byte by byte: active, from head 1, sector 1 and cylinder 0 on, the
      type, the last head, sector 63 and the last cylinder, which has 10 bits, and the place in sectors. */
  lemma TableBytes(l: Layout, ss: nat)
    requires ss >= 512 && l.nVol < 0x1_0000_0000
    ensures var b, cylinder := PartitionTable(l, ss), (l.bVol + l.nVol) / (63 * 255);
      && b[446..450] == [0x80, 1, 1, 0] && b[451] == 254 && b[452] % 64 == 63
      && b[450] == (if l.kind == Fat32 then 12 else if l.nVol < 65536 then 4 else 6)
      && b[452] / 64 * 256 + b[453] as nat == (if cylinder < 1024 then cylinder else 1023)
      && Number(b[454..458]) == 63 && Number(b[458..462]) == l.nVol
  {
    var cylinder := (l.bVol + l.nVol) / (63 * 255);
    var end6, end7 := EndByte(l.bVol + l.nVol, 6), EndByte(l.bVol + l.nVol, 7);
    EndCylinder(l.bVol + l.nVol);
    TableBytesAre(l, ss, end6, end7);
  }

  lemma EndCylinder(disk: nat)
    ensures var e6, e7, cylinder := EndByte(disk, 6), EndByte(disk, 7), disk / (63 * 255);
      e6 % 64 == 63 && e6 / 64 * 256 + e7 as nat == if cylinder < 1024 then cylinder else 1023
  {
    var c := disk / 63 / 255;
    assert disk / (63 * 255) == c;
    if c < 1024 {
      assert c == c / 256 * 256 + c % 256 && c / 4 / 64 == c / 256;
      assert (c / 4 - c / 4 % 64 + 63) == c / 256 * 64 + 63;
    }
  }

  lemma TableBytesAre(l: Layout, ss: nat, end6: Byte, end7: Byte)
    requires ss >= 512 && l.nVol < 0x1_0000_0000
    ensures var b := TableSector(l, ss, end6, end7);
      && b[446..450] == [0x80, 1, 1, 0] && b[450..454] == [TableKind(l), 254, end6, end7]
      && Number(b[454..458]) == 63 && Number(b[458..462]) == l.nVol
      && b[510..512] == [0x55, 0xAA] && b[54] == b[82] == 0
  {
    hide StWord, StDword, Zeros, Word, Dword, LdDword, Number;
    var b0 := ZeroSector(ss);
    var b1 := DwordStored(b0, 446, 0x0001_0180);
    var b3 := FourStored(b1, 450, TableKind(l), 254, end6, end7);
    var b4 := DwordStored(b3, 454, 63);
    var b5 := DwordStored(b4, 458, l.nVol);
    var b := WordStored(b5, BS_55AA, 0xAA55);
    assert b == TableSector(l, ss, end6, end7);
    LoadKept(b1, b3, 450, 454, 446);
    LoadKept(b3, b4, 454, 458, 446);
    LoadKept(b4, b5, 458, 462, 446);
    LoadKept(b5, b, 510, 512, 446);
    LoadKept(b4, b5, 458, 462, 454);
    LoadKept(b5, b, 510, 512, 454);
    LoadKept(b5, b, 510, 512, 458);
    assert b[54] == b[82] == 0;
    EndMark(b5);
    LoadsNumber(b, 446);
    LoadsNumber(b, 454);
    LoadsNumber(b, 458);
    var start: seq<Byte> := [0x80, 1, 1, 0];
    NumberOfStart(start);
    NumberUnique(b[446..450], start);
  }

  lemma EndMark(b: Sector)
    requires |b| >= 512
    ensures StWord(b, BS_55AA, 0xAA55)[510..512] == [0x55, 0xAA]
  {
  }

  lemma NumberOfStart(x: seq<Byte>)
    requires x == [0x80, 1, 1, 0]
    ensures Number(x) == 0x0001_0180
  {
    Number4(x);
  }

  /** A load is not changed by a store elsewhere. */
  lemma LoadKept(b: Sector, r: Sector, lo: nat, hi: nat, at: nat)
    requires Kept(b, r, lo, hi) && at + 4 <= |b| && (at + 4 <= lo || hi <= at)
    ensures LdDword(r, at) == LdDword(b, at)
  {
  }

  lemma ZeroLoad(b: Sector, at: nat)
    requires at + 4 <= |b| && b[at] == b[at + 1] == b[at + 2] == b[at + 3] == 0
    ensures LdDword(b, at) == 0
  {
  }

  lemma FourStored(b: Sector, at: nat, k: Byte, x: Byte, y: Byte, z: Byte) returns (r: Sector)
    requires at + 4 <= |b|
    ensures r == b[at + 3 := z][at + 2 := y][at + 1 := x][at := k] && Kept(b, r, at, at + 4) && r[at] == k
  {
    r := b[at + 3 := z][at + 2 := y][at + 1 := x][at := k];
  }

  lemma ZeroSector(ss: nat) returns (b: Sector)
    ensures b == Zeros(ss) && |b| == ss && forall i :: 0 <= i < ss ==> b[i] == 0
  {
    b := Zeros(ss);
  }

  /** The FSInfo sector. */
  function Info(ss: nat, free: nat): (b: Sector)
    requires ss >= 512
    ensures |b| == ss
  {
    var b := StDword(StDword(Zeros(ss), FSI_LEAD_SIG, LEAD_SIG), FSI_STRUC_SIG, STRUC_SIG);
    StWord(StDword(StDword(b, FSI_FREE_COUNT, free), FSI_NXT_FREE, 2), BS_55AA, 0xAA55)
  }

  lemma InfoReads(ss: nat, free: nat)
    requires ss >= 512 && free < 0x1_0000_0000
    ensures ReadFsInfo(Info(ss, free)) == Some(Hints(free, 2))
  {
    hide StWord, StDword, Zeros;
    var b0 := ZeroSector(ss);
    var b1 := DwordStored(b0, FSI_LEAD_SIG, LEAD_SIG);
    var b2 := DwordStored(b1, FSI_STRUC_SIG, STRUC_SIG);
    var b3 := DwordStored(b2, FSI_FREE_COUNT, free);
    var b4 := DwordStored(b3, FSI_NXT_FREE, 2);
    var b := WordStored(b4, BS_55AA, 0xAA55);
    assert b == Info(ss, free);
  }

  // ---- a formatted drive ----------------------------------------------------------------------------------

  function Media(sfd: bool): Byte {
    if sfd then 0xF0 else 0xF8
  }

  /** The sectors that f_mkfs leaves: the boot record, the FAT, the root directory, which is empty, and
      the FSInfo sector. */
  ghost predicate Written(v: seq<Sector>, l: Layout, ss: nat, sfd: bool, serial: nat)
    requires ss >= 512 && l.csize < 256
  {
    && End(l) <= |v| && 0 < l.nFat && (l.kind == Fat32 ==> l.nRsv > 7) && l.nRsv > 0
    && (if sfd then l.bVol == 0 else l.bVol == 63 && v[0] == PartitionTable(l, ss))
    && v[l.bVol] == Boot(l, ss, Media(sfd), serial)
    && v[l.Fat()] == FirstSector(l.kind, Media(sfd), ss)
    && (forall s :: l.Fat() < s < l.Fat() + l.nFat ==> v[s] == Zeros(ss))
    && (forall s :: l.Dir() <= s < End(l) ==> v[s] == Zeros(ss))
    && (l.kind == Fat32 ==> v[l.bVol + 1] == Info(ss, U32(l.nClst - 1)))
  }

  /** What a mount finds. */
  function MountOf(l: Layout, ss: nat, total: nat): Mount {
    Mount(GeometryOf(l, ss, total), if l.kind == Fat32 then 2 else l.Dir(),
          if l.kind == Fat32 then l.bVol + 1 else 0,
          if l.kind == Fat32 then Some(Hints(U32(l.nClst - 1), 2)) else None)
  }

  /** Mounting a formatted drive gives the layout that f_mkfs chose; only a volume without any cluster
      is refused. */
  lemma WrittenMounts(v: seq<Sector>, l: Layout, ss: nat, sfd: bool, serial: nat)
    requires Laid(l, ss, |v|) && l.nFat < 0x1_0000_0000 && Written(v, l, ss, sfd, serial)
    requires forall s :: 0 <= s < |v| ==> |v[s]| == ss
    ensures Mounted(v, ss) == if l.nClst == 0 then None else Some(MountOf(l, ss, |v|))
  {
    hide Boot, TableSector, EndByte, Info, Analysed, CheckFs, ReadBpb, ReadFsInfo, RequiredFatBytes, Clusters;
    BootReads(l, ss, |v|, Media(sfd), serial);
    LaidIsAccepted(ReadBpb(v[l.bVol]), l, ss, |v|);
    if !sfd {
      TableBytesAre(l, ss, EndByte(l.bVol + l.nVol, 6), EndByte(l.bVol + l.nVol, 7));
      TableFound(v[0]);
    }
    if l.kind == Fat32 && l.nClst > 0 {
      InfoReads(ss, U32(l.nClst - 1));
    }
  }

  /** The FAT of a formatted drive holds the chain of a FAT32 root directory and nothing else, and the
      FSInfo sector counts its free clusters rightly. */
  lemma WrittenIsEmpty(v: seq<Sector>, l: Layout, ss: nat, sfd: bool, serial: nat)
    requires Laid(l, ss, |v|) && l.nClst > 0 && Written(v, l, ss, sfd, serial)
    requires forall s :: 0 <= s < |v| ==> |v[s]| == ss
    ensures GeometryOf(l, ss, |v|).Ok() && WellSized(GeometryOf(l, ss, |v|), v)
    ensures var t := FatTable(GeometryOf(l, ss, |v|), v);
      && (forall c :: 0 <= c < |t| ==> t[c] == FreshEntry(l.kind, Media(sfd), c))
      && Family(t, if l.kind == Fat32 then [[2]] else [])
      && Free(t) == l.nClst - if l.kind == Fat32 then 1 else 0
  {
    hide Boot, PartitionTable, Info, RequiredFatBytes, Clusters, FatTable, FreshEntry, Family, Free;
    var g := GeometryOf(l, ss, |v|);
    GeometryIsOk(l, ss, |v|);
    FreshTable(g, v, Media(sfd));
    FreshChains(g, FatTable(g, v), Media(sfd));
  }

  // ---- f_mkfs -------------------------------------------------------------------------------------------------

  lemma FirstSize(kind: FatKind, md: Byte, ss: nat)
    requires ss >= 512
    ensures |FirstSector(kind, md, ss)| == ss
  {
  }

  lemma TableSize(l: Layout, ss: nat)
    requires ss >= 512
    ensures |PartitionTable(l, ss)| == ss
  {
  }

  lemma BootSize(l: Layout, ss: nat, md: Byte, serial: nat)
    requires ss >= 512 && l.csize < 256
    ensures |Boot(l, ss, md, serial)| == ss
  {
  }

  lemma InfoSize(ss: nat, free: nat)
    requires ss >= 512
    ensures |Info(ss, free)| == ss
  {
  }

  method ZeroBuffer(n: nat) returns (b: Sector)
    ensures b == Zeros(n) && |b| == n
  {
    b := Zeros(n);
  }

  datatype Result = Done(layout: Layout) | DiskError | Aborted

  class Drive {
    var sectors: seq<Sector>

    /** All sectors have the same size. */
    ghost predicate Sized(ss: nat, n: nat)
      reads this
    {
      |sectors| == n && forall s :: 0 <= s < n ==> |sectors[s]| == ss
    }

    /** Writes the same sector `n` times from `at` on; a sector outside the drive is an error. */
    method WriteRun(at: nat, n: nat, b: Sector) returns (ok: bool)
      requires Sized(|b|, |sectors|)
      modifies this
      ensures Sized(|b|, old(|sectors|))
      ensures ok <==> n == 0 || at + n <= |sectors|
      ensures ok ==> forall s :: 0 <= s < |sectors| ==>
        sectors[s] == if at <= s < at + n then b else old(sectors[s])
    {
      var i := 0;
      while i < n
        invariant i <= n && Sized(|b|, old(|sectors|)) && (i > 0 ==> at + i <= |sectors|)
        invariant forall s :: 0 <= s < |sectors| ==> sectors[s] == if at <= s < at + i then b else old(sectors[s])
      {
        if at + i >= |sectors| { return false; }
        sectors := sectors[at + i := b];
        i := i + 1;
      }
      ok := true;
    }

    /** Writes the FAT from `at` on, and behind it `root` empty sectors. */
    method WriteFat(at: nat, first: Sector, nFat: nat, root: nat) returns (ok: bool)
      requires Sized(|first|, |sectors|)
      modifies this
      ensures Sized(|first|, old(|sectors|))
      ensures ok <==> at + (if nFat == 0 then 1 else nFat) + root <= |sectors|
      ensures ok ==> sectors[at] == first && forall s :: at < s < at + nFat ==> sectors[s] == Zeros(|first|)
      ensures ok && nFat > 0 ==> forall s :: at + nFat <= s < at + nFat + root ==> sectors[s] == Zeros(|first|)
      ensures ok ==> forall s :: 0 <= s < at ==> sectors[s] == old(sectors[s])
    {
      hide Zeros;
      var zero := ZeroBuffer(|first|);
      ok := WriteRun(at, 1, first);
      var more := if nFat > 1 then nFat - 1 else 0;
      if ok { ok := WriteRun(at + 1, more, zero); }
      if ok { ok := WriteRun(at + 1 + more, root, zero); }
    }

    /** Writes the partition table and the boot record. An error of the copy of the boot record is not
        looked at. */
    method WriteBoot(l: Layout, ss: nat, sfd: bool, serial: nat) returns (ok: bool)
      requires SectorSizeOk(ss) && ClusterSizeOk(l.csize) && Sized(ss, |sectors|)
      requires l.bVol == (if sfd then 0 else 63) < |sectors|
      modifies this
      ensures ok && Sized(ss, old(|sectors|))
      ensures !sfd ==> sectors[0] == PartitionTable(l, ss)
      ensures sectors[l.bVol] == Boot(l, ss, Media(sfd), serial)
    {
      hide Boot, PartitionTable;
      ok := true;
      if !sfd {
        TableSize(l, ss);
        ok := WriteRun(0, 1, PartitionTable(l, ss));
        if !ok { return; }
      }
      BootSize(l, ss, Media(sfd), serial);
      ok := WriteRun(l.bVol, 1, Boot(l, ss, Media(sfd), serial));
      if !ok { return; }
      if l.kind == Fat32 && l.bVol + 6 < |sectors| {
        var _ := WriteRun(l.bVol + 6, 1, Boot(l, ss, Media(sfd), serial));
      }
    }

    /** Writes the FSInfo sector and its copy; errors are not looked at. */
    method WriteInfo(at: nat, b: Sector)
      requires at + 7 < |sectors| && Sized(|b|, |sectors|)
      modifies this
      ensures Sized(|b|, old(|sectors|)) && sectors[at + 1] == b
      ensures forall s :: 0 <= s < |sectors| && s != at + 1 && s != at + 7 ==> sectors[s] == old(sectors[s])
    {
      var _ := WriteRun(at + 1, 1, b);
      var _ := WriteRun(at + 7, 1, b);
    }

    /** Writes the parts of the volume. */
    method WriteParts(l: Layout, ss: nat, sfd: bool, serial: nat) returns (ok: bool)
      requires SectorSizeOk(ss) && ClusterSizeOk(l.csize) && Sized(ss, |sectors|)
      requires l.bVol == (if sfd then 0 else 63) < |sectors|
      modifies this
      ensures Sized(ss, old(|sectors|))
      ensures 0 < l.nFat && 0 < l.nRsv && (l.kind == Fat32 ==> l.nRsv > 7 && l.nDir == 0) ==>
        (ok <==> End(l) <= |sectors|) && (ok ==> Written(sectors, l, ss, sfd, serial))
    {
      hide Boot, PartitionTable, Info, FirstSector, Zeros;
      ok := WriteBoot(l, ss, sfd, serial);
      if !ok { return; }
      FirstSize(l.kind, Media(sfd), ss);
      ok := WriteFat(l.Fat(), FirstSector(l.kind, Media(sfd), ss), l.nFat, if l.kind == Fat32 then l.csize else l.nDir);
      if ok && l.kind == Fat32 && l.bVol + 7 < |sectors| {
        InfoSize(ss, U32(l.nClst - 1));
        WriteInfo(l.bVol, Info(ss, U32(l.nClst - 1)));
      }
    }

    /** f_mkfs for a drive of sectors of `ss` bytes whose erase blocks have `block` sectors, a power of
        two; the clusters get `csize` sectors. What it makes can be mounted, with the same sub-type and
        the same clusters, if there is a cluster at all. */
    method Mkfs(sfd: bool, au: nat, ss: nat, block: nat, serial: nat) returns (r: Result, csize: nat)
      requires SectorSizeOk(ss) && Sized(ss, |sectors|) && |sectors| < 0x1_0000_0000
      requires block == 0 || block > 32768 || IsPow2(block)
      modifies this
      ensures Sized(ss, old(|sectors|))
      ensures old(|sectors|) < 128 ==> r == DiskError && sectors == old(sectors) && csize == 1
      ensures old(|sectors|) >= 128 ==>
        var bVol := if sfd then 0 else 63;
        var nVol := |sectors| - bVol;
        && UnitChosen(nVol, au, ss, csize)
        && match Plan(bVol, nVol, csize, ss, block)
           case TooSmall => r == Aborted && sectors == old(sectors)
           case Planned(l) => Clusters(nVol, csize) <= 0x0FFF_FFF5 ==>
             r == (if End(l) <= |sectors| then Done(l) else DiskError)
      ensures r.Done? && Clusters(r.layout.nVol, csize) <= 0x0FFF_FFF5 ==>
        && Laid(r.layout, ss, |sectors|) && r.layout.Data() % BlockSize(block) == 0
        && Written(sectors, r.layout, ss, sfd, serial)
        && Mounted(sectors, ss) == if r.layout.nClst == 0 then None else Some(MountOf(r.layout, ss, |sectors|))
    {
      hide Written, Laid, Mounted, Plan, End, BlockSize, MountOf, SectorsPerCluster, IsPow2;
      csize := 1;
      if |sectors| < 128 {
        r := DiskError;
        return;
      }
      var bVol := if sfd then 0 else 63;
      var nVol := |sectors| - bVol;
      csize := ChooseUnit(nVol, au, ss);
      var p := Plan(bVol, nVol, csize, ss, block);
      if p == TooSmall {
        r := Aborted;
        return;
      }
      var l := p.layout;
      PlanIsFor(bVol, nVol, csize, ss, block);
      var ok := WriteParts(l, ss, sfd, serial);
      if !ok {
        r := DiskError;
        return;
      }
      if Clusters(nVol, csize) <= 0x0FFF_FFF5 {
        PlannedIsLaid(bVol, nVol, csize, ss, block, |sectors|);
        WrittenMounts(sectors, l, ss, sfd, serial);
      }
      r := Done(l);
    }
  }

  /** Chooses the size of the clusters. */
  method ChooseUnit(nVol: nat, au: nat, ss: nat) returns (csize: nat)
    requires SectorSizeOk(ss)
    ensures UnitChosen(nVol, au, ss, csize)
  {
    hide SectorsPerCluster;
    var unit := au;
    if !IsPow2(au) {
      unit := SelectUnit(nVol, ss);
    }
    csize := SectorsPerCluster(unit, ss);
    ClusterSizes(unit, ss);
  }

  /** The size of the clusters: as wished, or by the size of the volume when that is not a power of two. */
  ghost predicate UnitChosen(nVol: nat, au: nat, ss: nat, csize: nat)
    requires SectorSizeOk(ss)
  {
    && ClusterSizeOk(csize)
    && (IsPow2(au) ==> csize == SectorsPerCluster(au, ss))
    && (!IsPow2(au) ==> exists unit: nat :: AutoUnit(nVol, ss, unit) && csize == SectorsPerCluster(unit, ss))
  }

  lemma PlanIsFor(bVol: nat, nVol: nat, csize: nat, ss: nat, block: nat)
    requires SectorSizeOk(ss) && csize > 0 && Plan(bVol, nVol, csize, ss, block).Planned?
    ensures var l := Plan(bVol, nVol, csize, ss, block).layout;
      && l.bVol == bVol && l.nVol == nVol && l.csize == csize
      && (nVol < 0x1_0000_0000 && Clusters(nVol, csize) < 0x1000_0000 ==>
           0 < l.nFat < 0x1_0000_0000 && 0 < l.nRsv && (l.kind == Fat32 ==> l.nRsv > 7 && l.nDir == 0))
  {
    hide Plan;
    var _, _ := PlanParts(bVol, nVol, csize, ss, block);
    if nVol < 0x1_0000_0000 && Clusters(nVol, csize) < 0x1000_0000 {
      var _ := PlanSound(bVol, nVol, csize, ss, block);
    }
  }

  /** When everything that f_mkfs writes lies within the drive, nothing has wrapped. */
  lemma PlannedIsLaid(bVol: nat, nVol: nat, csize: nat, ss: nat, block: nat, total: nat)
    requires SectorSizeOk(ss) && ClusterSizeOk(csize) && bVol + nVol == total < 0x1_0000_0000
    requires Clusters(nVol, csize) <= 0x0FFF_FFF5
    requires Plan(bVol, nVol, csize, ss, block).Planned? && End(Plan(bVol, nVol, csize, ss, block).layout) <= total
    ensures Laid(Plan(bVol, nVol, csize, ss, block).layout, ss, total)
    ensures Plan(bVol, nVol, csize, ss, block).layout.Data() % BlockSize(block) == 0
  {
    hide Plan, Clusters, KindOf, RequiredFatBytes, BlockSize;
    var _ := PlanSound(bVol, nVol, csize, ss, block);
  }

  /** A volume that f_mkfs makes and chk_mounted refuses: 128 sectors with erase blocks of 128 sectors,
      where the aligned data area begins at the end of the drive. */
  lemma NoCluster()
    ensures Plan(0, 128, 1, 512, 128) == Planned(Layout(Fat12, 1, 0, 128, 1, 95, 32, 0))
    ensures End(Layout(Fat12, 1, 0, 128, 1, 95, 32, 0)) == 128
  {
    assert KindOf(Clusters(128, 1)) == Fat12 && FatSectors(Fat12, 128, 512) == 1;
    assert NextMultiple(34, 128) == 128;
    assert Final(Layout(Fat12, 1, 0, 128, 1, 95, 32, 0)) == Planned(Layout(Fat12, 1, 0, 128, 1, 95, 32, 0));
  }
}