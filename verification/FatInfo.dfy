/** The FAT32 FSInfo sector: what sync stores there and what mounting reads back. */
module FatInfo {
  import opened Wrappers
  import opened Bytes
  import opened FatGeometry
  import opened FatPacking

  const BS_55AA := 510
  const FSI_LEAD_SIG := 0
  const FSI_STRUC_SIG := 484
  const FSI_FREE_COUNT := 488
  const FSI_NXT_FREE := 492

  const LEAD_SIG := 0x4161_5252
  const STRUC_SIG := 0x6141_7272

  function StWord(s: Sector, off: nat, val: nat): (r: Sector)
    requires off + 2 <= |s|
    ensures |r| == |s|
  {
    s[off := val % 0x100][off + 1 := val / 0x100 % 0x100]
  }

  function StDword(s: Sector, off: nat, val: nat): (r: Sector)
    requires off + 4 <= |s|
    ensures |r| == |s|
  {
    StWord(StWord(s, off, val), off + 2, val / 0x1_0000)
  }

  function LdWord(s: Sector, off: nat): nat
    requires off + 2 <= |s|
  {
    Word(s[off], s[off + 1])
  }

  function LdDword(s: Sector, off: nat): nat
    requires off + 4 <= |s|
  {
    Dword(s[off], s[off + 1], s[off + 2], s[off + 3])
  }

  lemma LoadStored(s: Sector, off: nat, val: nat, at: nat)
    requires off + 4 <= |s| && at + 4 <= |s| && val < 0x1_0000_0000
    requires at == off || at + 4 <= off || off + 4 <= at
    ensures LdDword(StDword(s, off, val), at) == if at == off then val else LdDword(s, at)
  {
    if at == off {
      var low, high := val % 0x1_0000, val / 0x1_0000;
      assert low == val % 0x100 + 0x100 * (val / 0x100 % 0x100);
      assert high == high % 0x100 + 0x100 * (high / 0x100 % 0x100);
    }
  }

  /** The FSInfo sector sync builds; beyond byte 512 the buffer keeps what it held. */
  function FsInfoSector(s: Sector, free: nat, last: nat): (r: Sector)
    requires 512 <= |s|
    ensures |r| == |s|
  {
    var s0 := seq(|s|, i requires 0 <= i < |s| => if i < 512 then 0 else s[i]);
    var s1 := StWord(s0, BS_55AA, 0xAA55);
    var s2 := StDword(s1, FSI_LEAD_SIG, LEAD_SIG);
    var s3 := StDword(s2, FSI_STRUC_SIG, STRUC_SIG);
    StDword(StDword(s3, FSI_FREE_COUNT, free), FSI_NXT_FREE, last)
  }

  /** The allocation hints: the number of free clusters, and the cluster allocated last. */
  datatype Hints = Hints(free: nat, last: nat)

  /** What chk_mounted takes from an FSInfo sector, if its signatures are right: the free
      cluster count and the last allocated cluster. */
  function ReadFsInfo(s: Sector): Option<Hints>
    requires 512 <= |s|
  {
    if LdWord(s, BS_55AA) == 0xAA55 && LdDword(s, FSI_LEAD_SIG) == LEAD_SIG && LdDword(s, FSI_STRUC_SIG) == STRUC_SIG
    then Some(Hints(LdDword(s, FSI_FREE_COUNT), LdDword(s, FSI_NXT_FREE)))
    else None
  }

  /** Mounting reads back the allocation hints that sync stored. */
  lemma FsInfoRoundTrip(s: Sector, free: nat, last: nat)
    requires 512 <= |s| && free < 0x1_0000_0000 && last < 0x1_0000_0000
    ensures ReadFsInfo(FsInfoSector(s, free, last)) == Some(Hints(free, last))
  {
    hide StDword, LdDword;
    var s0: Sector := seq(|s|, i requires 0 <= i < |s| => if i < 512 then 0 else s[i]);
    var s1 := StWord(s0, BS_55AA, 0xAA55);
    var s2 := StDword(s1, FSI_LEAD_SIG, LEAD_SIG);
    var s3 := StDword(s2, FSI_STRUC_SIG, STRUC_SIG);
    var s4 := StDword(s3, FSI_FREE_COUNT, free);
    var s5 := StDword(s4, FSI_NXT_FREE, last);
    WordKept(s1, FSI_LEAD_SIG, LEAD_SIG);
    WordKept(s2, FSI_STRUC_SIG, STRUC_SIG);
    WordKept(s3, FSI_FREE_COUNT, free);
    WordKept(s4, FSI_NXT_FREE, last);
    LoadStored(s1, FSI_LEAD_SIG, LEAD_SIG, FSI_LEAD_SIG);
    LoadStored(s2, FSI_STRUC_SIG, STRUC_SIG, FSI_LEAD_SIG);
    LoadStored(s2, FSI_STRUC_SIG, STRUC_SIG, FSI_STRUC_SIG);
    LoadStored(s3, FSI_FREE_COUNT, free, FSI_LEAD_SIG);
    LoadStored(s3, FSI_FREE_COUNT, free, FSI_STRUC_SIG);
    LoadStored(s3, FSI_FREE_COUNT, free, FSI_FREE_COUNT);
    LoadStored(s4, FSI_NXT_FREE, last, FSI_LEAD_SIG);
    LoadStored(s4, FSI_NXT_FREE, last, FSI_STRUC_SIG);
    LoadStored(s4, FSI_NXT_FREE, last, FSI_FREE_COUNT);
    LoadStored(s4, FSI_NXT_FREE, last, FSI_NXT_FREE);
    assert LdWord(s1, BS_55AA) == 0xAA55;
    assert FsInfoSector(s, free, last) == s5;
  }

  lemma LoadsNumber(s: Sector, off: nat)
    requires off + 4 <= |s|
    ensures LdDword(s, off) == Number(s[off..off + 4])
  {
    Number4(s[off..off + 4]);
  }

  lemma Signature(s: Sector, off: nat, x: seq<Byte>)
    requires off + |x| <= |s|
    ensures s[off..off + |x|] == x <==> Number(s[off..off + |x|]) == Number(x)
  {
    if Number(s[off..off + |x|]) == Number(x) {
      NumberUnique(s[off..off + |x|], x);
    }
  }

  /** What mounting looks at, byte by byte: "RRaA" at the start, "rrAa" from 484 on, the two counts
      behind it, and 0x55 0xAA at 510. */
  lemma FsInfoBytes(s: Sector)
    requires 512 <= |s|
    ensures ReadFsInfo(s) ==
      if s[..4] == [0x52, 0x52, 0x61, 0x41] && s[484..488] == [0x72, 0x72, 0x41, 0x61] && s[510..512] == [0x55, 0xAA]
      then Some(Hints(Number(s[488..492]), Number(s[492..496]))) else None
  {
    var lead, struct, mark: seq<Byte> := [0x52, 0x52, 0x61, 0x41], [0x72, 0x72, 0x41, 0x61], [0x55, 0xAA];
    Number4(lead);
    Number4(struct);
    Number2(mark);
    Number2(s[510..512]);
    assert s[..4] == s[0..4];
    LoadsNumber(s, 0);
    LoadsNumber(s, 484);
    LoadsNumber(s, 488);
    LoadsNumber(s, 492);
    hide Number, LdDword;
    Signature(s, 0, lead);
    Signature(s, 484, struct);
    Signature(s, 510, mark);
  }

  /** Everything else in an FSInfo sector that sync writes is zero, up to byte 512. */
  lemma FsInfoRest(s: Sector, free: nat, last: nat)
    requires 512 <= |s|
    ensures var r := FsInfoSector(s, free, last);
      && (forall i :: 4 <= i < 484 || 496 <= i < 510 ==> r[i] == 0)
      && (forall i :: 512 <= i < |s| ==> r[i] == s[i])
  {
  }

  lemma WordKept(s: Sector, off: nat, val: nat)
    requires 512 <= |s| && off + 4 <= BS_55AA
    ensures LdWord(StDword(s, off, val), BS_55AA) == LdWord(s, BS_55AA)
  {
  }
}
