/** The mounted volume: a drive, a one-sector write-back window over it, and the FAT access
    routines that work through the window. Drive transfers are taken to succeed. */
module FatVolume {
  import opened Bytes
  import opened FatGeometry
  import opened FatPacking
  import opened FatView
  import opened FatChain
  import opened FatInfo
  import opened Arithmetic

  const NOT_COUNTED := 0xFFFF_FFFF
  const DISK_ERROR := 0xFFFF_FFFF

  function Inc32(x: nat): nat {
    (x + 1) % 0x1_0000_0000
  }

  function Dec32(x: nat): nat {
    (x + 0xFFFF_FFFF) % 0x1_0000_0000
  }

  /** The end mark create_chain stores, as the volume keeps it. */
  function Eoc(kind: FatKind): (e: nat)
    ensures MaxFatent(kind) < e < EntryRange(kind)
  {
    Trunc(kind, LAST_LINK)
  }

  /** A right free cluster count stays right over an allocation. */
  lemma AllocateCount(kind: FatKind, t: seq<nat>, clst: nat, r: nat)
    requires 2 <= |t| <= MaxFatent(kind) && NeedsNew(t, clst) && 2 <= r < |t| && t[r] == 0
    ensures Free(Allocated(t, clst, r, Eoc(kind))) == Dec32(Free(t)) && Free(t) != NOT_COUNTED
  {
    FreeAllocated(t, clst, r, Eoc(kind));
  }

  /** An entry of two or four bytes, at offset `p` of FAT sector `q`. */
  lemma EntryInSector(g: Geometry, v: seq<Sector>, q: nat, p: nat, c: nat)
    requires g.Ok() && WellSized(g, v) && g.kind != Fat12 && c < g.nFatent && q < g.fsize
    requires EntryPos(g.kind, c) == q * g.ss + p && p + EntryBytes(g.kind) <= g.ss
    ensures g.fatbase + q < g.total
    ensures var b := v[g.fatbase + q];
      FatTable(g, v)[c] == if g.kind == Fat16 then Word(b[p], b[p + 1])
                           else Dword(b[p], b[p + 1], b[p + 2], b[p + 3]) % 0x1000_0000
  {
    hide Word, Dword, FatBytes, Geometry.Ok;
    FatByteAt(g, v, q, p);
    FatByteAt(g, v, q, p + 1);
    if g.kind == Fat32 {
      FatByteAt(g, v, q, p + 2);
      FatByteAt(g, v, q, p + 3);
    }
    EntryInside(g.kind, g.nFatent, FatBytes(g, v), c);
  }

  /** A FAT32 entry inside the slice `w` of the FAT that starts at `at`. */
  lemma SliceEntry32(b: seq<Byte>, at: nat, w: seq<Byte>, p: nat, c: nat)
    requires at + |w| <= |b| && w == b[at..at + |w|] && c * 4 == at + p && p + 4 <= |w|
    ensures Dword(w[p], w[p + 1], w[p + 2], w[p + 3]) % 0x1000_0000 == Entry(Fat32, b, c)
  {
    hide Dword;
  }

  class Volume {
    const g: Geometry
    const fsiSector: nat
    const win: array<Byte>
    var disk: seq<Sector>
    var winsect: nat
    var wflag: bool
    var fsiFlag: bool
    var lastClust: nat
    var freeClust: nat

    ghost predicate Valid()
      reads this, win
    {
      && g.Ok()
      && WellSized(g, disk)
      && CopiesAgree(g, disk)
      && win.Length == g.ss
      && (g.kind == Fat32 ==> 0 < fsiSector < g.fatbase && fsiSector < g.total)
      && winsect < g.total
      && (wflag ==> g.fatbase <= winsect && (g.InFatArea(winsect) ==> g.InFat(winsect)))
      && (!wflag && winsect != 0 ==> win[..] == disk[winsect])
    }

    /** The content of the volume: the drive overlaid by the dirty window. */
    ghost function View(): (v: seq<Sector>)
      requires Valid()
      reads this, win
      ensures WellSized(g, v)
    {
      if wflag then Overlay(g, disk, winsect, win[..]) else disk
    }

    ghost function Fat(): (t: seq<nat>)
      requires Valid()
      reads this, win
      ensures |t| == g.nFatent
    {
      FatTable(g, View())
    }

    /** The free cluster count is known and right. */
    ghost predicate Counted()
      requires Valid()
      reads this, win
    {
      freeClust == Free(Fat())
    }

    /** A mounted volume whose window has not been used yet. */
    constructor (g: Geometry, disk: seq<Sector>, fsiSector: nat, lastClust: nat, freeClust: nat)
      requires g.Ok() && WellSized(g, disk) && CopiesAgree(g, disk) && (g.kind == Fat32 ==> 0 < fsiSector < g.fatbase)
      ensures Valid() && fresh(win) && View() == disk
      ensures this.g == g && this.lastClust == lastClust && this.freeClust == freeClust && !fsiFlag && winsect == 0
    {
      this.g := g;
      this.disk := disk;
      this.fsiSector := fsiSector;
      this.lastClust, this.freeClust, this.fsiFlag := lastClust, freeClust, false;
      this.winsect, this.wflag := 0, false;
      this.win := new Byte[g.ss](_ => 0);
      new;
      FatEnd(g);
    }

    /** Brings a sector into the window, writing the dirty window back first; sector 0 only
        writes back. The content of the volume never changes. */
    method MoveWindow(sector: nat)
      requires Valid() && sector < g.total
      modifies this`disk, this`winsect, this`wflag, win
      ensures Valid() && View() == old(View())
      ensures sector != 0 ==> winsect == sector && win[..] == View()[sector]
      ensures sector == 0 ==> winsect == old(winsect) && !wflag && disk == View() && win[..] == old(win[..])
    {
      if winsect != sector {
        if wflag {
          WriteBackWindow();
        }
        if sector != 0 {
          forall i | 0 <= i < g.ss { win[i] := disk[sector][i]; }
          winsect := sector;
          assert win[..] == disk[sector];
        }
      }
    }

    /** Writes the dirty window to its sector and, inside the FAT, to the other copies. */
    method WriteBackWindow()
      requires Valid() && wflag
      modifies this`disk, this`wflag
      ensures Valid() && !wflag && disk == old(View())
    {
      FatEnd(g);
      var wsect := winsect;
      disk := disk[wsect := win[..]];
      wflag := false;
      if wsect < g.fatbase + g.fsize {
        var nf := g.nFats;
        while nf > 1
          invariant 1 <= nf <= g.nFats && !wflag
          invariant nf == g.nFats ==> wsect == winsect && disk == old(disk)[winsect := win[..]]
          invariant nf < g.nFats ==> disk == old(View())
        {
          wsect := wsect + g.fsize;
          disk := disk[wsect := win[..]];
          nf := nf - 1;
        }
      }
    }

    /** Stores one byte through the window, which holds FAT sector `q`. */
    method Poke(ghost q: nat, off: nat, b: Byte)
      requires Valid() && q < g.fsize && winsect == g.fatbase + q && off < g.ss
      modifies this`wflag, win
      ensures Valid() && wflag && SameOutsideFat(g, old(View()), View())
      ensures q * g.ss + off < |FatBytes(g, View())|
      ensures FatBytes(g, View()) == old(FatBytes(g, View()))[q * g.ss + off := b]
    {
      hide FatBytes, Overlay, CopiesAgree;
      FatEnd(g);
      ghost var v := View();
      FatByteStored(g, v, q, off, b);
      ghost var sector: Sector := v[winsect][off := b];
      OverlayAgain(g, disk, winsect, win[..], sector);
      OverlayAgain(g, v, winsect, win[..], sector);
      win[off] := b;
      wflag := true;
      assert win[..] == sector;
      assert View() == Overlay(g, v, winsect, sector);
    }

    /** Brings byte `k` of the FAT into the window: FAT sector `q`, offset `off`. */
    method WindowByte(k: nat) returns (ghost q: nat, off: nat)
      requires Valid() && k < g.fsize * g.ss
      modifies this`disk, this`winsect, this`wflag, win
      ensures Valid() && View() == old(View())
      ensures q < g.fsize && winsect == g.fatbase + q && off < g.ss && k == q * g.ss + off
      ensures win[off] == FatBytes(g, View())[k]
    {
      hide FatBytes, Overlay, CopiesAgree;
      DivModSplit(k, g.ss);
      DivBound(k, g.ss, g.fsize);
      q, off := k / g.ss, k % g.ss;
      FatByteAt(g, View(), q, off);
      MoveWindow(g.fatbase + k / g.ss);
      assert win[off] == win[..][off];
    }

    /** Brings the sector of an `m`-byte FAT entry into the window; `p` is its place there. */
    method WindowEntry(m: nat, clst: nat) returns (ghost q: nat, p: nat)
      requires Valid() && (m == 2 || m == 4) && (clst + 1) * m <= g.fsize * g.ss
      modifies this`disk, this`winsect, this`wflag, win
      ensures Valid() && View() == old(View())
      ensures q < g.fsize && winsect == g.fatbase + q && p + m <= g.ss && clst * m == q * g.ss + p
      ensures q * g.ss + g.ss <= |FatBytes(g, View())|
      ensures win[..] == FatBytes(g, View())[q * g.ss..q * g.ss + g.ss]
    {
      hide FatBytes, Overlay, CopiesAgree;
      ghost var q', p' := EntryPlace(g.ss, g.fsize, m, clst);
      FatSector(g, View(), q');
      q, p := clst / (g.ss / m), clst * m % g.ss;
      MoveWindow(g.fatbase + clst / (g.ss / m));
    }

    /** Reads the bytes of a FAT12 entry, moving the window between them if need be. */
    method GetFat12(clst: nat) returns (r: nat)
      requires Valid() && g.kind == Fat12 && EntryPos(Fat12, clst) + 2 <= g.fsize * g.ss
      modifies this`disk, this`winsect, this`wflag, win
      ensures Valid() && View() == old(View()) && g.InFat(winsect)
      ensures r == Entry(Fat12, FatBytes(g, View()), clst)
    {
      hide FatBytes, Overlay, CopiesAgree;
      var bc := clst + clst / 2;
      var q, off := WindowByte(bc);
      var lo := win[off];
      bc := bc + 1;
      q, off := WindowByte(bc);
      var wc := Word(lo, win[off]);
      r := if clst % 2 == 1 then wc / 16 else wc % 0x1000;
    }

    method GetFat16(clst: nat) returns (r: nat)
      requires Valid() && g.kind == Fat16 && EntryPos(Fat16, clst) + 2 <= g.fsize * g.ss
      modifies this`disk, this`winsect, this`wflag, win
      ensures Valid() && View() == old(View()) && g.InFat(winsect)
      ensures r == Entry(Fat16, FatBytes(g, View()), clst)
    {
      hide FatBytes, Overlay, CopiesAgree;
      ghost var b, k := FatBytes(g, View()), clst * 2;
      var q, p := WindowEntry(2, clst);
      assert win[..][p] == b[k] && win[..][p + 1] == b[k + 1];
      r := Word(win[..][p], win[..][p + 1]);
    }

    method GetFat32(clst: nat) returns (r: nat)
      requires Valid() && g.kind == Fat32 && EntryPos(Fat32, clst) + 4 <= g.fsize * g.ss
      modifies this`disk, this`winsect, this`wflag, win
      ensures Valid() && View() == old(View()) && g.InFat(winsect)
      ensures r == Entry(Fat32, FatBytes(g, View()), clst)
    {
      hide FatBytes, Overlay, CopiesAgree, Dword, Entry;
      var q, p := WindowEntry(4, clst);
      SliceEntry32(FatBytes(g, View()), q * g.ss, win[..], p, clst);
      r := Dword(win[..][p], win[..][p + 1], win[..][p + 2], win[..][p + 3]) % 0x1000_0000;
    }

    /** The status of cluster `clst`; 1 reports an invalid cluster number. */
    method GetFat(clst: nat) returns (r: nat)
      requires Valid()
      modifies this`disk, this`winsect, this`wflag, win
      ensures Valid() && View() == old(View())
      ensures r == if 2 <= clst < g.nFatent then Fat()[clst] else 1
      ensures 2 <= clst < g.nFatent ==> g.InFat(winsect)
      ensures !(2 <= clst < g.nFatent) ==> winsect == old(winsect)
    {
      if clst < 2 || clst >= g.nFatent {
        return 1;
      }
      hide FatBytes, Overlay, CopiesAgree, Entry;
      EntryInside(g.kind, g.nFatent, FatBytes(g, View()), clst);
      match g.kind
      case Fat12 => r := GetFat12(clst);
      case Fat16 => r := GetFat16(clst);
      case Fat32 => r := GetFat32(clst);
    }

    /** Changes byte `k` of the FAT as `Byte12` says: one of the two steps by which put_fat stores a
        FAT12 entry. */
    method PutByte12(k: nat, clst: nat, high: bool, val: nat)
      requires Valid() && k < g.fsize * g.ss
      modifies this`disk, this`winsect, this`wflag, win
      ensures Valid() && wflag && SameOutsideFat(g, old(View()), View()) && g.InFat(winsect)
      ensures FatBytes(g, View()) == old(FatBytes(g, View()))[k := Byte12(clst, high, old(FatBytes(g, View()))[k], val)]
    {
      hide FatBytes, Overlay, CopiesAgree, Byte12;
      var q, off := WindowByte(k);
      Poke(q, off, Byte12(clst, high, win[off], val));
    }

    /** Stores a little-endian word through the window. */
    method StoreWord(ghost q: nat, p: nat, lo: Byte, hi: Byte)
      requires Valid() && q < g.fsize && winsect == g.fatbase + q && p + 1 < g.ss
      modifies this`wflag, win
      ensures Valid() && wflag && SameOutsideFat(g, old(View()), View())
      ensures q * g.ss + p + 1 < |FatBytes(g, View())|
      ensures FatBytes(g, View()) == old(FatBytes(g, View()))[q * g.ss + p := lo][q * g.ss + p + 1 := hi]
    {
      hide FatBytes, Overlay, CopiesAgree;
      Poke(q, p, lo);
      Poke(q, p + 1, hi);
    }

    /** Stores the two bytes of a FAT12 entry, moving the window between them if need be. */
    method PutFat12(clst: nat, val: nat)
      requires Valid() && g.kind == Fat12 && EntryPos(Fat12, clst) + 2 <= g.fsize * g.ss
      modifies this`disk, this`winsect, this`wflag, win
      ensures Valid() && wflag && SameOutsideFat(g, old(View()), View()) && g.InFat(winsect)
      ensures FatBytes(g, View()) == Packed(Fat12, old(FatBytes(g, View())), clst, val)
    {
      hide FatBytes, Overlay, CopiesAgree, Byte12;
      var bc := clst + clst / 2;
      PutByte12(bc, clst, false, val);
      bc := bc + 1;
      PutByte12(bc, clst, true, val);
    }

    method PutFat16(clst: nat, val: nat)
      requires Valid() && g.kind == Fat16 && EntryPos(Fat16, clst) + 2 <= g.fsize * g.ss
      modifies this`disk, this`winsect, this`wflag, win
      ensures Valid() && wflag && SameOutsideFat(g, old(View()), View()) && g.InFat(winsect)
      ensures FatBytes(g, View()) == Packed(Fat16, old(FatBytes(g, View())), clst, val)
    {
      hide FatBytes, Overlay, CopiesAgree;
      var q, p := WindowEntry(2, clst);
      StoreWord(q, p, val % 0x100, val / 0x100 % 0x100);
    }

    method PutFat32(clst: nat, val: nat)
      requires Valid() && g.kind == Fat32 && EntryPos(Fat32, clst) + 4 <= g.fsize * g.ss
      modifies this`disk, this`winsect, this`wflag, win
      ensures Valid() && wflag && SameOutsideFat(g, old(View()), View()) && g.InFat(winsect)
      ensures FatBytes(g, View()) == Packed(Fat32, old(FatBytes(g, View())), clst, val)
    {
      hide FatBytes, Overlay, CopiesAgree, PackedTop;
      ghost var b, k := FatBytes(g, View()), clst * 4;
      var q, p := WindowEntry(4, clst);
      var top := PackedTop(win[..][p + 3], val);
      assert top == PackedTop(b[k + 3], val);
      StoreWord(q, p, val % 0x100, val / 0x100 % 0x100);
      assert FatBytes(g, View()) == b[k := val % 0x100][k + 1 := val / 0x100 % 0x100];
      StoreWord(q, p + 2, val / 0x1_0000 % 0x100, top);
    }

    /** Sets the entry of cluster `clst`; false reports an invalid cluster number. */
    method PutFat(clst: nat, val: nat) returns (ok: bool)
      requires Valid()
      modifies this`disk, this`winsect, this`wflag, win
      ensures Valid() && SameOutsideFat(g, old(View()), View())
      ensures ok == (2 <= clst < g.nFatent)
      ensures ok ==> g.InFat(winsect) && wflag && Fat() == old(Fat())[clst := Trunc(g.kind, val)]
      ensures !ok ==> View() == old(View()) && winsect == old(winsect)
    {
      if clst < 2 || clst >= g.nFatent {
        return false;
      }
      hide FatBytes, Overlay, CopiesAgree, Packed, Table;
      PackedTable(g.kind, g.nFatent, FatBytes(g, View()), clst, val);
      match g.kind {
        case Fat12 => PutFat12(clst, val);
        case Fat16 => PutFat16(clst, val);
        case Fat32 => PutFat32(clst, val);
      }
      ok := true;
    }

    /** Stretches the chain that ends in cluster `clst`, or makes a new one when `clst` is 0.
        The result is the following cluster, 0 when no cluster is free, 1 for an inner error. */
    method CreateChain(clst: nat) returns (ncl: nat)
      requires Valid()
      modifies this, win
      ensures Valid() && SameOutsideFat(g, old(View()), View())
      ensures g.InFat(winsect) || winsect == old(winsect)
      ensures Created(old(Fat()), old(lastClust), clst, ncl, Fat(), Eoc(g.kind))
      ensures !NeedsNew(old(Fat()), clst) || ncl < 2 ==> View() == old(View()) && unchanged(this`lastClust, this`freeClust)
      ensures NeedsNew(old(Fat()), clst) && ncl >= 2 ==> lastClust == ncl && g.InFat(winsect)
      ensures NeedsNew(old(Fat()), clst) && ncl >= 2 ==>
        freeClust == if old(freeClust) == NOT_COUNTED then NOT_COUNTED else Dec32(old(freeClust))
      ensures old(Counted()) ==> Counted()
    {
      hide FatTable, Overlay, CopiesAgree, FirstStop, Trunc, Dec32, Eoc, Allocated, Free;
      var scl;
      if clst == 0 {
        scl := lastClust;
        if scl == 0 || scl >= g.nFatent {
          scl := 1;
        }
      } else {
        var cs := GetFat(clst);
        if cs < 2 { return 1; }
        if cs < g.nFatent { return cs; }
        scl := clst;
      }
      ncl := FindFree(scl);
      if ncl < 2 { return; }
      TakeFree(clst, ncl);
    }

    /** Links free cluster `ncl` in and counts it off. */
    method TakeFree(clst: nat, ncl: nat)
      requires Valid() && 2 <= ncl < g.nFatent && (clst == 0 || 2 <= clst < g.nFatent)
      requires Fat()[ncl] == 0 && NeedsNew(Fat(), clst)
      modifies this, win
      ensures Valid() && SameOutsideFat(g, old(View()), View()) && g.InFat(winsect)
      ensures Fat() == Allocated(old(Fat()), clst, ncl, Eoc(g.kind)) && lastClust == ncl
      ensures freeClust == if old(freeClust) == NOT_COUNTED then NOT_COUNTED else Dec32(old(freeClust))
      ensures old(Counted()) ==> Counted()
    {
      hide FatTable, Overlay, CopiesAgree, FirstStop, Trunc, Dec32, Eoc, Allocated, Free;
      AllocateCount(g.kind, Fat(), clst, ncl);
      LinkNew(clst, ncl);
      lastClust := ncl;
      if freeClust != NOT_COUNTED {
        freeClust := Dec32(freeClust);
        fsiFlag := true;
      }
    }

    /** Marks free cluster `ncl` as the last link and links it behind `clst`, if there is one. */
    method LinkNew(clst: nat, ncl: nat)
      requires Valid() && 2 <= ncl < g.nFatent && (clst == 0 || 2 <= clst < g.nFatent)
      modifies this`disk, this`winsect, this`wflag, win
      ensures Valid() && SameOutsideFat(g, old(View()), View()) && g.InFat(winsect)
      ensures Fat() == Allocated(old(Fat()), clst, ncl, Eoc(g.kind))
    {
      hide FatTable, Overlay, CopiesAgree, Trunc;
      var ok := PutFat(ncl, LAST_LINK);
      if clst != 0 {
        TruncSmall(g.kind, ncl);
        ok := PutFat(clst, ncl);
      }
    }

    /** The search loop of create_chain. */
    method FindFree(scl: nat) returns (ncl: nat)
      requires Valid() && 1 <= scl < g.nFatent
      modifies this`disk, this`winsect, this`wflag, win
      ensures Valid() && View() == old(View())
      ensures g.InFat(winsect) || winsect == old(winsect)
      ensures ncl == 0 <==> forall c :: 2 <= c < g.nFatent ==> Fat()[c] >= 2
      ensures ncl == 1 ==> exists c: nat :: FirstStop(Fat(), scl, c) && Fat()[c] == 1
      ensures ncl >= 2 ==> FirstStop(Fat(), scl, ncl)
      ensures ncl < g.nFatent && (ncl >= 2 ==> Fat()[ncl] == 0)
    {
      hide FatTable, Overlay, CopiesAgree;
      ghost var t, d := Fat(), 0;
      ncl := scl;
      while true
        invariant Valid() && View() == old(View())
        invariant g.InFat(winsect) || winsect == old(winsect)
        invariant 1 <= ncl < g.nFatent
        invariant if d == 0 then ncl == scl else ncl >= 2 && ncl != scl && d == ScanDist(g.nFatent, scl, ncl)
        invariant forall c :: 2 <= c < g.nFatent && ScanDist(g.nFatent, scl, c) <= d ==> t[c] >= 2
        decreases g.nFatent - d
      {
        ncl := ncl + 1;
        if ncl >= g.nFatent {
          ncl := 2;
          if ncl > scl { return 0; }
        }
        d := ScanDist(g.nFatent, scl, ncl);
        var cs := GetFat(ncl);
        if cs < 2 { Stops(t, scl, ncl); }
        if cs == 0 { return; }
        if cs == DISK_ERROR || cs == 1 { return cs; }
        if ncl == scl { return 0; }
      }
    }

    lemma Stops(t: seq<nat>, scl: nat, r: nat)
      requires 1 <= scl < |t| && 2 <= r < |t| && t[r] < 2
      requires forall c :: 2 <= c < |t| && ScanDist(|t|, scl, c) < ScanDist(|t|, scl, r) ==> t[c] >= 2
      ensures FirstStop(t, scl, r)
    {
      forall c | 2 <= c < |t| && Sooner(scl, c, r)
        ensures t[c] >= 2
      {
        SoonerIsNearer(|t|, scl, c, r);
      }
    }

    /** Frees the chain from cluster `clst` on; false reports an inner error. */
    method RemoveChain(clst: nat) returns (ok: bool)
      requires Valid()
      modifies this, win
      ensures Valid() && SameOutsideFat(g, old(View()), View()) && lastClust == old(lastClust)
      ensures g.InFat(winsect) || winsect == old(winsect)
      ensures !(2 <= clst < g.nFatent) ==> !ok && View() == old(View())
      ensures 2 <= clst < g.nFatent ==> (Fat(), ok) == RemoveFrom(old(Fat()), clst)
      ensures old(Counted()) ==> Counted()
    {
      hide FatTable, Overlay, CopiesAgree, Free, Trunc, RemoveFrom, CountZero;
      if clst < 2 || clst >= g.nFatent {
        return false;
      }
      ok := true;
      var c := clst;
      while c < g.nFatent
        invariant Valid() && SameOutsideFat(g, old(View()), View()) && lastClust == old(lastClust)
        invariant g.InFat(winsect) || winsect == old(winsect)
        invariant 2 <= c && ok
        invariant RemoveFrom(Fat(), c) == RemoveFrom(old(Fat()), clst)
        invariant old(Counted()) ==> Counted()
        decreases g.nFatent - CountZero(Fat())
      {
        var nxt := GetFat(c);
        RemoveStep(Fat(), c);
        if nxt == 0 { return; }
        if nxt == 1 { ok := false; return; }
        TruncSmall(g.kind, 0);
        var put := PutFat(c, 0);
        if freeClust != NOT_COUNTED {
          freeClust := Inc32(freeClust);
          fsiFlag := true;
        }
        c := nxt;
      }
      RemoveDone(Fat(), c);
    }

    /** f_getfree: the number of free clusters. A plausible count is returned as it is; otherwise the
        FAT is scanned. On FAT12 the scan fails at an invalid entry, but keeps what it has counted; on
        FAT16 and FAT32 it also looks at entries 0 and 1. */
    method GetFree() returns (ok: bool, n: nat)
      requires Valid()
      modifies this, win
      ensures Valid() && View() == old(View()) && lastClust == old(lastClust)
      ensures old(freeClust) <= g.nFatent - 2 ==> ok && n == freeClust == old(freeClust)
      ensures old(freeClust) > g.nFatent - 2 ==> n == freeClust == CountZero(Scanned(g.kind == Fat12, Fat()))
      ensures old(freeClust) > g.nFatent - 2 ==> (ok <==> g.kind != Fat12 || FirstInvalid(Fat(), 2) == g.nFatent)
    {
      hide FatTable, Overlay, CopiesAgree;
      ok := true;
      if freeClust <= g.nFatent - 2 {
        n := freeClust;
      } else {
        if g.kind == Fat12 {
          ok, n := ScanEntries();
        } else {
          n := ScanSectors();
        }
        freeClust := n;
        if g.kind == Fat32 {
          fsiFlag := true;
        }
      }
    }

    /** The scan of a FAT12 table. */
    method ScanEntries() returns (ok: bool, n: nat)
      requires Valid()
      modifies this`disk, this`winsect, this`wflag, win
      ensures Valid() && View() == old(View())
      ensures ok == (FirstInvalid(Fat(), 2) == g.nFatent) && n == CountZero(Fat()[2..FirstInvalid(Fat(), 2)])
    {
      hide FatTable, Overlay, CopiesAgree;
      ok, n := true, 0;
      var clst := 2;
      while clst < g.nFatent
        invariant 2 <= clst <= g.nFatent && Valid() && View() == old(View()) && ok
        invariant n == CountZero(Fat()[2..clst]) && FirstInvalid(Fat(), 2) == FirstInvalid(Fat(), clst)
      {
        var stat := GetFat(clst);
        if stat == 1 {
          ok := false;
          return;
        }
        CountNext(Fat(), 2, clst);
        if stat == 0 {
          n := n + 1;
        }
        clst := clst + 1;
      }
    }

    /** The FAT16 and FAT32 scan, which walks the sectors of the FAT through the window. */
    method ScanSectors() returns (n: nat)
      requires Valid() && g.kind != Fat12
      modifies this`disk, this`winsect, this`wflag, win
      ensures Valid() && View() == old(View()) && n == CountZero(Fat())
    {
      hide FatTable, Overlay, CopiesAgree, FatBytes, CountZero, Geometry.Ok, Volume.View;
      ScanSizes(g);
      ghost var t := Fat();
      var clst, sect, i, p := g.nFatent, g.fatbase, 0, 0;
      var m := if g.kind == Fat16 then 2 else 4;
      n := 0;
      ghost var q, pos, left := 0, 0, 0;
      CountNone(t);
      while clst > 0
        invariant 0 <= clst <= g.nFatent && Valid() && View() == old(View())
        invariant n == CountZero(t[0..g.nFatent - clst])
        invariant i == left * m && 0 <= left && (i > 0 ==> p + i == g.ss)
        invariant pos == (g.nFatent - clst) * m
        invariant i == 0 ==> pos == q * g.ss && sect == g.fatbase + q
        invariant i > 0 ==> pos == q * g.ss + p && winsect == g.fatbase + q && sect == winsect + 1
        invariant i > 0 ==> q < g.fsize && win[..] == View()[winsect]
      {
        ghost var c := g.nFatent - clst;
        if i == 0 {
          ScanBound(g, c, m, q);
          MoveWindow(sect);
          sect := sect + 1;
          p, i := 0, g.ss;
          left := EntriesPerSector(g.ss, m);
        }
        ScanRoom(left, m);
        var zero := EntryIsZero(q, p, m, c);
        CountNext(t, 0, c);
        if zero {
          n := n + 1;
        }
        MulStep(c, m);
        MulStep(q, g.ss);
        p, i, clst := p + m, i - m, clst - 1;
        pos, left := pos + m, left - 1;
        if i == 0 { q := q + 1; }
      }
      assert t[0..g.nFatent] == t;
    }

    /** Whether the entry at offset `p` of the window is free. */
    method EntryIsZero(ghost q: nat, p: nat, m: nat, ghost c: nat) returns (zero: bool)
      requires Valid() && g.kind != Fat12 && m == (if g.kind == Fat16 then 2 else 4) && c < g.nFatent
      requires q < g.fsize && winsect == g.fatbase + q && win[..] == View()[winsect]
      requires p + m <= g.ss && c * m == q * g.ss + p
      ensures zero == (Fat()[c] == 0)
    {
      hide Overlay, CopiesAgree, FatBytes, FatTable, Geometry.Ok, Volume.View, Word, Dword;
      ScanSizes(g);
      EntryInSector(g, View(), q, p, c);
      if g.kind == Fat16 {
        zero := Word(win[p], win[p + 1]) == 0;
      } else {
        zero := Dword(win[p], win[p + 1], win[p + 2], win[p + 3]) % 0x1000_0000 == 0;
      }
    }

    /** Cleans up cached data: writes the window back and, on FAT32, the FSInfo sector. */
    method Sync()
      requires Valid()
      modifies this`disk, this`winsect, this`wflag, this`fsiFlag, win
      ensures Valid() && !wflag && disk == View()
      ensures if g.kind == Fat32 && old(fsiFlag) then
          disk == old(View())[fsiSector := FsInfoSector(old(win[..]), freeClust, lastClust)] && !fsiFlag
        else disk == old(View()) && fsiFlag == old(fsiFlag)
    {
      hide CopiesAgree;
      MoveWindow(0);
      if g.kind == Fat32 && fsiFlag {
        winsect := 0;
        FillFsInfo();
        assert fsiSector < g.total by { FatEnd(g); }
        CopiesKept(g, disk, fsiSector, win[..]);
        disk := disk[fsiSector := win[..]];
        fsiFlag := false;
      }
    }

    /** Builds the FSInfo sector in the window. */
    method FillFsInfo()
      requires win.Length >= 512
      modifies win
      ensures win[..] == FsInfoSector(old(win[..]), freeClust, lastClust)
    {
      hide StWord, StDword;
      ghost var w := win[..];
      ghost var s0: Sector := seq(|w|, i requires 0 <= i < |w| => if i < 512 then 0 else w[i]);
      forall i | 0 <= i < 512 { win[i] := 0; }
      assert win[..] == s0;
      StoreHalf(BS_55AA, 0xAA55);
      StoreFull(FSI_LEAD_SIG, LEAD_SIG);
      StoreFull(FSI_STRUC_SIG, STRUC_SIG);
      StoreFull(FSI_FREE_COUNT, freeClust);
      StoreFull(FSI_NXT_FREE, lastClust);
    }

    method StoreHalf(off: nat, val: nat)
      requires off + 2 <= win.Length
      modifies win
      ensures win[..] == StWord(old(win[..]), off, val)
    {
      win[off] := val % 0x100;
      win[off + 1] := val / 0x100 % 0x100;
    }

    method StoreFull(off: nat, val: nat)
      requires off + 4 <= win.Length
      modifies win
      ensures win[..] == StDword(old(win[..]), off, val)
    {
      StoreHalf(off, val);
      StoreHalf(off + 2, val / 0x1_0000);
    }

    /** Reads `cc` sectors of the data area, past the window. */
    method DiskRead(sect: nat, cc: nat) returns (x: seq<Byte>)
      requires Valid() && g.database <= sect && sect + cc <= g.total
      requires !(sect <= winsect < sect + cc)
      ensures |x| == cc * g.ss
      ensures forall i :: 0 <= i < cc ==> Chunk(x, g.ss, i) == View()[sect + i]
    {
      hide Geometry.Ok, CopiesAgree, Overlay, Chunk;
      x := [];
      var n := 0;
      while n < cc
        invariant 0 <= n <= cc && |x| == n * g.ss
        invariant forall i :: 0 <= i < n ==> Chunk(x, g.ss, i) == View()[sect + i]
      {
        ChunkAppend(x, g.ss, n, disk[sect + n]);
        if wflag { DataUnderOverlay(g, disk, winsect, win[..], sect + n); }
        x := x + disk[sect + n];
        n := n + 1;
      }
    }

    /** Reads one sector of the data area, past the window. */
    method DiskReadOne(s: nat) returns (x: Sector)
      requires Valid() && g.database <= s < g.total && s != winsect
      ensures x == View()[s]
    {
      if wflag { DataUnderOverlay(g, disk, winsect, win[..], s); }
      x := disk[s];
    }

    /** Writes one sector of the data area, past the window. */
    method DiskWriteOne(s: nat, y: Sector)
      requires Valid() && g.database <= s < g.total && |y| == g.ss && s != winsect
      modifies this`disk
      ensures Valid() && View() == old(View())[s := y] && Fat() == old(Fat())
    {
      hide Geometry.Ok, CopiesAgree, Overlay, FatTable;
      FatEnd(g);
      CopiesKept(g, disk, s, y);
      if wflag { DataWritten(g, disk, winsect, win[..], s, y); }
      disk := disk[s := y];
      FatTableSame(g, old(View()), View());
    }

    /** Writes `cc` sectors of the data area, past the window. */
    method DiskWrite(sect: nat, cc: nat, x: seq<Byte>)
      requires Valid() && g.database <= sect && sect + cc <= g.total && |x| == cc * g.ss
      requires !(sect <= winsect < sect + cc)
      modifies this`disk
      ensures Valid() && Fat() == old(Fat())
      ensures forall s :: 0 <= s < g.total ==>
        View()[s] == if sect <= s < sect + cc then Chunk(x, g.ss, s - sect) else old(View())[s]
    {
      hide Geometry.Ok, Chunk, Volume.View, Volume.Fat;
      ghost var v0 := View();
      var n := 0;
      while n < cc
        invariant 0 <= n <= cc && Valid() && Fat() == old(Fat())
        invariant forall s :: 0 <= s < g.total ==>
          View()[s] == if sect <= s < sect + n then Chunk(x, g.ss, s - sect) else v0[s]
      {
        ChunkSize(x, g.ss, cc, n);
        DiskWriteOne(sect + n, Chunk(x, g.ss, n));
        n := n + 1;
      }
    }
  }
}
