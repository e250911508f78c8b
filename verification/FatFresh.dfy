/** An empty FAT: its first sector, and the entries it holds. */
module FatFresh {
  import opened Bytes
  import opened Arithmetic
  import opened FatGeometry
  import opened FatPacking
  import opened FatView
  import opened FatInfo
  import opened FatChain

  /** The first sector of the FAT: the media byte, ends of chains for entries 0 and 1 and, for FAT32,
      for the root directory in cluster 2. */
  function FirstSector(kind: FatKind, md: Byte, ss: nat): (b: Sector)
    requires ss >= 512
    ensures |b| == ss
  {
    match kind
    case Fat12 => StDword(Zeros(ss), 0, md + 0x00FF_FF00)
    case Fat16 => StDword(Zeros(ss), 0, md + 0xFFFF_FF00)
    case Fat32 => StDword(StDword(StDword(Zeros(ss), 0, md + 0xFFFF_FF00), 4, 0xFFFF_FFFF), 8, 0x0FFF_FFFF)
  }

  function FirstByte(kind: FatKind, md: Byte, k: nat): Byte {
    if k == 0 then md
    else match kind
      case Fat12 => if k < 3 then 0xFF else 0
      case Fat16 => if k < 4 then 0xFF else 0
      case Fat32 => if k < 11 then 0xFF else if k == 11 then 0x0F else 0
  }

  lemma FirstBytes(kind: FatKind, md: Byte, ss: nat, k: nat)
    requires ss >= 512 && k < ss
    ensures FirstSector(kind, md, ss)[k] == FirstByte(kind, md, k)
  {
    hide Zeros, StDword;
    ZerosAre(ss);
    MediaBytes(md);
    match kind
    case Fat12 => DwordByte(Zeros(ss), 0, md + 0x00FF_FF00, k);
    case Fat16 => DwordByte(Zeros(ss), 0, md + 0xFFFF_FF00, k);
    case Fat32 =>
      var a := StDword(Zeros(ss), 0, md + 0xFFFF_FF00);
      DwordByte(Zeros(ss), 0, md + 0xFFFF_FF00, k);
      var b := StDword(a, 4, 0xFFFF_FFFF);
      DwordByte(a, 4, 0xFFFF_FFFF, k);
      DwordByte(b, 8, 0x0FFF_FFFF, k);
  }

  lemma ZerosAre(n: nat)
    ensures |Zeros(n)| == n && forall i :: 0 <= i < n ==> Zeros(n)[i] == 0
  {
  }

  lemma MediaBytes(md: Byte)
    ensures var n := md + 0x00FF_FF00;
      n % 0x100 == md && n / 0x100 % 0x100 == 0xFF && n / 0x1_0000 % 0x100 == 0xFF && n / 0x1_0000 / 0x100 % 0x100 == 0
    ensures var n := md + 0xFFFF_FF00;
      n % 0x100 == md && n / 0x100 % 0x100 == 0xFF && n / 0x1_0000 % 0x100 == 0xFF && n / 0x1_0000 / 0x100 % 0x100 == 0xFF
  {
  }

  /** Byte `k` of a sector after a store. */
  lemma DwordByte(s: Sector, at: nat, val: nat, k: nat)
    requires at + 4 <= |s| && k < |s|
    ensures |StDword(s, at, val)| == |s|
    ensures StDword(s, at, val)[k] ==
      if k == at then val % 0x100
      else if k == at + 1 then val / 0x100 % 0x100
      else if k == at + 2 then val / 0x1_0000 % 0x100
      else if k == at + 3 then val / 0x1_0000 / 0x100 % 0x100
      else s[k]
  {
  }

  /** The entries of a new FAT. */
  function FreshEntry(kind: FatKind, md: Byte, c: nat): nat {
    if c == 0 then EntryRange(kind) - 0x100 + md
    else if c == 1 || (c == 2 && kind == Fat32) then EntryRange(kind) - 1
    else 0
  }

  /** The first two entries of a new FAT on a fixed disk; every other one but that of a FAT32 root
      directory is 0. */
  lemma FirstEntries(kind: FatKind, c: nat)
    ensures FreshEntry(Fat12, 0xF8, 0) == 0xFF8 && FreshEntry(Fat16, 0xF8, 0) == 0xFFF8 && FreshEntry(Fat32, 0xF8, 0) == 0x0FFF_FFF8
    ensures FreshEntry(Fat12, 0xF8, 1) == 0xFFF && FreshEntry(Fat16, 0xF8, 1) == 0xFFFF && FreshEntry(Fat32, 0xF8, 1) == 0x0FFF_FFFF
    ensures FreshEntry(Fat32, 0xF8, 2) == 0x0FFF_FFFF && (c > 2 || (c == 2 && kind != Fat32) ==> FreshEntry(kind, 0xF8, c) == 0)
  {
  }

  /** The sectors of the FAT are those that f_mkfs writes. */
  ghost predicate FreshFat(g: Geometry, v: seq<Sector>, md: Byte)
    requires g.Ok() && |v| == g.total
  {
    FatEnd(g);
    v[g.fatbase] == FirstSector(g.kind, md, g.ss)
    && forall s :: g.fatbase < s < g.fatbase + g.fsize ==> v[s] == Zeros(g.ss)
  }

  lemma FreshByte(g: Geometry, v: seq<Sector>, md: Byte, k: nat)
    requires g.Ok() && WellSized(g, v) && FreshFat(g, v, md) && k < g.fsize * g.ss
    ensures FatBytes(g, v)[k] == FirstByte(g.kind, md, k)
  {
    hide FirstSector;
    SectorSplit(g.ss, k);
    SectorBelow(g.ss, k, g.fsize);
    FatEnd(g);
    assert FatBytes(g, v)[k] == FatByte(g, v, k) == v[g.fatbase + k / g.ss][k % g.ss];
    if k / g.ss == 0 {
      FirstBytes(g.kind, md, g.ss, k);
    } else {
      LaterSector(g.ss, k);
    }
  }

  lemma LaterSector(ss: nat, k: nat)
    requires SectorSizeOk(ss) && k / ss > 0
    ensures k >= 512
  {
  }

  lemma FreshTable(g: Geometry, v: seq<Sector>, md: Byte)
    requires g.Ok() && WellSized(g, v) && FreshFat(g, v, md)
    ensures forall c :: 0 <= c < g.nFatent ==> FatTable(g, v)[c] == FreshEntry(g.kind, md, c)
  {
    hide FreshFat, FatBytes, FreshEntry, Entry;
    forall c | 0 <= c < g.nFatent
      ensures FatTable(g, v)[c] == FreshEntry(g.kind, md, c)
    {
      FreshAt(g, v, md, c);
    }
  }

  lemma FreshAt(g: Geometry, v: seq<Sector>, md: Byte, c: nat)
    requires g.Ok() && WellSized(g, v) && FreshFat(g, v, md) && c < g.nFatent
    ensures FatTable(g, v)[c] == FreshEntry(g.kind, md, c)
  {
    TableAt(g, v, c);
    hide FreshFat, EntryPos, FatTable, FatBytes, FreshEntry, Geometry.Ok, FirstByte, EntryWord, Decoded;
    var b := FatBytes(g, v);
    var k := EntryPos(g.kind, c);
    FreshBytesAt(g, v, md, k);
    if c < 3 {
      EarlyEntry(g.kind, b, md, c);
    } else {
      LateBytes(g.kind, md, c);
      ZeroEntryWord(g.kind, b, k);
      DecodedZero(g.kind, c % 2 == 1);
    }
  }

  lemma FreshBytesAt(g: Geometry, v: seq<Sector>, md: Byte, k: nat)
    requires g.Ok() && WellSized(g, v) && FreshFat(g, v, md) && k + EntryBytes(g.kind) <= |FatBytes(g, v)|
    ensures forall j :: k <= j < k + EntryBytes(g.kind) ==> FatBytes(g, v)[j] == FirstByte(g.kind, md, j)
  {
    hide FreshFat, FatBytes, FirstByte, Geometry.Ok;
    assert |FatBytes(g, v)| == g.fsize * g.ss by { FatSize(g, v); }
    forall j | k <= j < k + EntryBytes(g.kind)
      ensures FatBytes(g, v)[j] == FirstByte(g.kind, md, j)
    {
      FreshByte(g, v, md, j);
    }
  }

  lemma FatSize(g: Geometry, v: seq<Sector>)
    requires g.Ok() && WellSized(g, v)
    ensures |FatBytes(g, v)| == g.fsize * g.ss
  {
  }

  lemma TableAt(g: Geometry, v: seq<Sector>, c: nat)
    requires g.Ok() && WellSized(g, v) && c < g.nFatent
    ensures |FatBytes(g, v)| == g.fsize * g.ss && Holds(g.kind, g.nFatent, FatBytes(g, v))
    ensures EntryPos(g.kind, c) + EntryBytes(g.kind) <= |FatBytes(g, v)|
    ensures FatTable(g, v)[c] == Entry(g.kind, FatBytes(g, v), c)
  {
    hide FatBytes, Entry;
    EntryInside(g.kind, g.nFatent, FatBytes(g, v), c);
  }

  lemma ZeroEntryWord(kind: FatKind, b: seq<Byte>, k: nat)
    requires k + EntryBytes(kind) <= |b| && forall j :: k <= j < k + EntryBytes(kind) ==> b[j] == 0
    ensures EntryWord(kind, b, k) == 0
  {
    assert b[k] == 0 && b[k + 1] == 0;
  }

  lemma DecodedZero(kind: FatKind, odd: bool)
    ensures Decoded(kind, odd, 0) == 0
  {
  }

  lemma ZeroWords()
    ensures Word(0, 0) == 0 && Dword(0, 0, 0, 0) == 0
  {
  }

  lemma LateBytes(kind: FatKind, md: Byte, c: nat)
    requires c >= 3
    ensures FreshEntry(kind, md, c) == 0
    ensures var k := EntryPos(kind, c);
      && FirstByte(kind, md, k) == 0 && FirstByte(kind, md, k + 1) == 0
      && (kind == Fat32 ==> FirstByte(kind, md, k + 2) == 0 && FirstByte(kind, md, k + 3) == 0)
  {
  }

  lemma EarlyEntry(kind: FatKind, b: seq<Byte>, md: Byte, c: nat)
    requires c < 3
    requires var k := EntryPos(kind, c);
      && k + EntryBytes(kind) <= |b|
      && b[k] == FirstByte(kind, md, k) && b[k + 1] == FirstByte(kind, md, k + 1)
      && (kind == Fat32 ==> b[k + 2] == FirstByte(kind, md, k + 2) && b[k + 3] == FirstByte(kind, md, k + 3))
    ensures Entry(kind, b, c) == FreshEntry(kind, md, c)
  {
    match kind
    case Fat12 => if c == 0 { assert Word(md, 0xFF) == md + 0xFF00; } else if c == 1 { assert Word(0xFF, 0xFF) == 0xFFFF; }
    case Fat16 => if c == 0 { assert Word(md, 0xFF) == md + 0xFF00; } else if c == 1 { assert Word(0xFF, 0xFF) == 0xFFFF; }
    case Fat32 =>
      if c == 0 { assert Dword(md, 0xFF, 0xFF, 0xFF) == 0xF * 0x1000_0000 + (0xFFF_FF00 + md); }
  }

  lemma {:induction false} AllZero(s: seq<nat>)
    requires forall i :: 0 <= i < |s| ==> s[i] == 0
    ensures CountZero(s) == |s|
  {
    if s != [] {
      AllZero(s[..|s| - 1]);
    }
  }

  /** A new FAT holds no chain but that of a FAT32 root directory, and everything else is free. */
  lemma FreshChains(g: Geometry, t: seq<nat>, md: Byte)
    requires g.Ok() && |t| == g.nFatent && forall c :: 0 <= c < |t| ==> t[c] == FreshEntry(g.kind, md, c)
    ensures Family(t, if g.kind == Fat32 then [[2]] else [])
    ensures Free(t) == g.nFatent - 2 - if g.kind == Fat32 then 1 else 0
  {
    if g.kind == Fat32 {
      assert t[3..] == t[2..][1..];
      CountSplit(t[2..], 1);
      assert t[2..][..1] == [t[2]];
      NoZero([t[2]]);
      AllZero(t[3..]);
    } else {
      AllZero(t[2..]);
    }
  }
}
