/** The FAT as a run of bytes inside the volume content. */
module FatView {
  import opened Bytes
  import opened FatGeometry
  import opened FatPacking
  import opened Arithmetic

  /** Byte `k` of the first FAT copy. */
  function FatByte(g: Geometry, v: seq<Sector>, k: nat): (b: Byte)
    requires g.Ok() && WellSized(g, v) && k < g.fsize * g.ss
  {
    FatEnd(g);
    SectorBelow(g.ss, k, g.fsize);
    SectorSplit(g.ss, k);
    v[g.fatbase + k / g.ss][k % g.ss]
  }

  /** The first FAT copy as one byte sequence. */
  function FatBytes(g: Geometry, v: seq<Sector>): (b: seq<Byte>)
    requires g.Ok() && WellSized(g, v)
    ensures |b| == g.fsize * g.ss
    ensures Holds(g.kind, g.nFatent, b)
  {
    seq(g.fsize * g.ss, k requires 0 <= k < g.fsize * g.ss => FatByte(g, v, k))
  }

  /** The table of all FAT entries of the volume. */
  function FatTable(g: Geometry, v: seq<Sector>): (t: seq<nat>)
    requires g.Ok() && WellSized(g, v)
    ensures |t| == g.nFatent
    ensures forall c :: 0 <= c < |t| ==> t[c] < EntryRange(g.kind)
  {
    Table(g.kind, g.nFatent, FatBytes(g, v))
  }

  /** `v` and `v'` differ only inside the FAT area. */
  ghost predicate SameOutsideFat(g: Geometry, v: seq<Sector>, v': seq<Sector>) {
    |v| == |v'| && forall s :: 0 <= s < |v| && !g.InFatArea(s) ==> v[s] == v'[s]
  }

  /** Byte `off` of the `q`-th FAT sector. */
  lemma FatByteAt(g: Geometry, v: seq<Sector>, q: nat, off: nat)
    requires g.Ok() && WellSized(g, v) && q < g.fsize && off < g.ss
    ensures g.fatbase + g.fsize <= g.total && q * g.ss + off < g.fsize * g.ss
    ensures FatBytes(g, v)[q * g.ss + off] == v[g.fatbase + q][off]
  {
    FatEnd(g);
    MulMono(q + 1, g.fsize, g.ss);
    DivModUnique(q * g.ss + off, g.ss, q, off);
    assert FatBytes(g, v)[q * g.ss + off] == FatByte(g, v, q * g.ss + off);
  }

  /** The `q`-th FAT sector is a slice of the FAT. */
  lemma FatSector(g: Geometry, v: seq<Sector>, q: nat)
    requires g.Ok() && WellSized(g, v) && q < g.fsize
    ensures 0 < g.fatbase + q < g.total && q * g.ss + g.ss <= |FatBytes(g, v)|
    ensures FatBytes(g, v)[q * g.ss..q * g.ss + g.ss] == v[g.fatbase + q]
  {
    FatByteAt(g, v, q, g.ss - 1);
    var sector := FatBytes(g, v)[q * g.ss..q * g.ss + g.ss];
    forall off | 0 <= off < g.ss
      ensures sector[off] == v[g.fatbase + q][off]
    {
      FatByteAt(g, v, q, off);
    }
  }

  /** Changing one byte of a FAT sector, in every copy, changes just that byte of the FAT. */
  lemma FatByteStored(g: Geometry, v: seq<Sector>, q: nat, off: nat, b: Byte)
    requires g.Ok() && WellSized(g, v) && q < g.fsize && off < g.ss
    ensures g.fatbase + g.fsize <= g.total && q * g.ss + off < g.fsize * g.ss
    ensures var v' := Overlay(g, v, g.fatbase + q, v[g.fatbase + q][off := b]);
      WellSized(g, v') && FatBytes(g, v') == FatBytes(g, v)[q * g.ss + off := b]
  {
    FatByteAt(g, v, q, off);
    var v' := Overlay(g, v, g.fatbase + q, v[g.fatbase + q][off := b]);
    forall j: nat | j < g.fsize * g.ss
      ensures FatBytes(g, v')[j] == if j == q * g.ss + off then b else FatBytes(g, v)[j]
    {
      FatByteStoredAt(g, v, v', q, off, b, j);
    }
  }

  lemma FatByteStoredAt(g: Geometry, v: seq<Sector>, v': seq<Sector>, q: nat, off: nat, b: Byte, j: nat)
    requires g.Ok() && WellSized(g, v) && WellSized(g, v') && q < g.fsize && off < g.ss && j < g.fsize * g.ss
    requires g.fatbase + g.fsize <= g.total && v' == Overlay(g, v, g.fatbase + q, v[g.fatbase + q][off := b])
    ensures FatBytes(g, v')[j] == if j == q * g.ss + off then b else FatBytes(g, v)[j]
  {
    var q', off' := j / g.ss, j % g.ss;
    DivModSplit(j, g.ss);
    DivBound(j, g.ss, g.fsize);
    FatByteAt(g, v, q', off');
    FatByteAt(g, v', q', off');
    if q' == q {
      assert v'[g.fatbase + q'] == v[g.fatbase + q][off := b];
    } else {
      DivModUnique(q * g.ss + off, g.ss, q, off);
      assert v'[g.fatbase + q'] == v[g.fatbase + q'];
    }
  }

  /** Entries of `m` bytes do not cross sectors. The driver looks for entry `c` in FAT sector
      `c / (ss / m)`, at offset `c * m % ss`. */
  lemma EntryPlace(ss: nat, fsize: nat, m: nat, c: nat) returns (q: nat, p: nat)
    requires SectorSizeOk(ss) && (m == 2 || m == 4) && (c + 1) * m <= fsize * ss
    ensures q == c / (ss / m) && p == c * m % ss
    ensures c * m == q * ss + p && p + m <= ss && q < fsize
  {
    var h := ss / m;
    assert ss == h * m;
    q, p := EntryPlaceIn(h, m, c);
    DivBound(c * m, ss, fsize);
  }

  lemma EntryPlaceIn(h: nat, m: nat, c: nat) returns (q: nat, p: nat)
    requires 0 < h && 0 < m
    ensures 0 < h * m && q == c / h == c * m / (h * m) && p == c * m % (h * m)
    ensures c * m == q * (h * m) + p && p + m <= h * m
  {
    ScaledDivMod(c, h, m, 0);
    q, p := c / h, c % h * m;
    DivModSplit(c, h);
    ScaledSplit(q, h, c % h, m, m - 1);
  }

  /** Overlaying FAT sector `w` again replaces the earlier overlay, and touches only the FAT. */
  lemma OverlayAgain(g: Geometry, v: seq<Sector>, w: nat, a: Sector, b: Sector)
    requires g.Ok() && |v| == g.total && g.InFat(w) && w < g.total
    ensures Overlay(g, Overlay(g, v, w, a), w, b) == Overlay(g, v, w, b)
    ensures SameOutsideFat(g, v, Overlay(g, v, w, b))
    ensures Overlay(g, v, w, a)[w] == a
  {
    FatEnd(g);
  }

  lemma TruncSmall(kind: FatKind, n: nat)
    requires n <= MaxFatent(kind)
    ensures Trunc(kind, n) == n
  {
  }

  lemma EntriesPerSector(ss: nat, m: nat) returns (n: nat)
    requires SectorSizeOk(ss) && (m == 2 || m == 4)
    ensures ss == n * m && n > 0
  {
    n := ss / m;
  }

  lemma ScanRoom(left: int, m: nat)
    requires left * m > 0 && left >= 0
    ensures left >= 1 && left * m >= m && (left - 1) * m == left * m - m
  {
    MulMono(1, left, m);
  }

  /** Writing a sector outside the FAT area leaves the FAT copies in agreement. */
  lemma CopiesKept(g: Geometry, v: seq<Sector>, s: nat, b: Sector)
    requires g.Ok() && |v| == g.total && s < g.total && !g.InFatArea(s) && CopiesAgree(g, v)
    ensures CopiesAgree(g, v[s := b])
  {
    FatEnd(g);
  }

  lemma ScanSizes(g: Geometry)
    requires g.Ok()
    ensures SectorSizeOk(g.ss) && g.nFatent >= 3
    ensures g.fatbase > 0 && g.fatbase + g.fsize <= g.total
  {
    FatEnd(g);
  }

  /** An `m`-byte entry that starts FAT sector `q` lies in the FAT. */
  lemma ScanBound(g: Geometry, c: nat, m: nat, q: nat)
    requires g.Ok() && g.kind != Fat12 && m == (if g.kind == Fat16 then 2 else 4) && c < g.nFatent
    requires c * m == q * g.ss
    ensures q < g.fsize
  {
    assert c * m < g.fsize * g.ss;
    if q >= g.fsize {
      MulMono(g.fsize, q, g.ss);
    }
  }

  /** A sector of the data area other than the window's is read past the overlay. */
  lemma DataUnderOverlay(g: Geometry, v: seq<Sector>, w: nat, b: Sector, s: nat)
    requires g.Ok() && |v| == g.total && w < g.total && g.database <= s < g.total && s != w
    requires g.InFatArea(w) ==> g.InFat(w)
    ensures Overlay(g, v, w, b)[s] == v[s]
  {
    FatEnd(g);
  }

  lemma DataWritten(g: Geometry, v: seq<Sector>, w: nat, b: Sector, s: nat, y: Sector)
    requires g.Ok() && |v| == g.total && w < g.total && g.database <= s < g.total && s != w
    requires g.InFatArea(w) ==> g.InFat(w)
    ensures Overlay(g, v[s := y], w, b) == Overlay(g, v, w, b)[s := y]
  {
    FatEnd(g);
  }

  /** The table depends on the first FAT copy only. */
  lemma FatTableSame(g: Geometry, v: seq<Sector>, v': seq<Sector>)
    requires g.Ok() && WellSized(g, v) && WellSized(g, v')
    requires forall s :: g.InFat(s) && s < g.total ==> v[s] == v'[s]
    ensures FatTable(g, v) == FatTable(g, v')
  {
    FatEnd(g);
    forall k: nat | k < g.fsize * g.ss
      ensures FatByte(g, v, k) == FatByte(g, v', k)
    {
      SectorBelow(g.ss, k, g.fsize);
      assert g.InFat(g.fatbase + k / g.ss);
    }
    assert FatBytes(g, v) == FatBytes(g, v');
  }
}
