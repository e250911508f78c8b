/** Whole runs of f_read, f_write and f_lseek on one open file: the file behaves as a byte
    sequence with a cursor. */
module FatSession {
  import opened Arithmetic
  import opened Bytes
  import opened FatGeometry
  import opened FatChain
  import opened FileData
  import opened FatFile
  import opened FatVolume
  import opened ClusterMap

  datatype Op = Read(count: nat) | Write(bytes: seq<Byte>) | Seek(ofs: nat)

  datatype Answer = Answer(res: FResult, data: seq<Byte>, count: nat)

  /** How the file is opened: for reading, for writing, and with a cluster map. */
  datatype Mode = Mode(canRead: bool, canWrite: bool, mapped: bool)

  /** What a user sees of the file: its bytes, the cursor, and whether it can get no further cluster,
      because the disk is full or the map fixed. */
  datatype Sight = Sight(data: seq<Byte>, pos: nat, full: bool)

  /** The operation fits the 32-bit interface; with a map, the largest target is the request to make
      one. */
  predicate Fits(mode: Mode, op: Op) {
    match op
    case Read(_) => true
    case Write(x) => |x| < 0x1_0000_0000
    case Seek(ofs) => ofs < 0x1_0000_0000 && (mode.mapped ==> ofs != CREATE_LINKMAP)
  }

  /** One operation on a byte sequence with a cursor. */
  ghost predicate Does(mode: Mode, op: Op, ans: Answer, a: Sight, b: Sight)
    requires a.pos <= |a.data|
  {
    match op
    case Read(count) => Reads(mode, count, ans, a, b)
    case Write(x) => Writes(mode, x, ans, a, b)
    case Seek(ofs) => Seeks(mode, ofs, ans, a, b)
  }

  /** Reading yields the bytes behind the cursor, as many as asked for and present. */
  ghost predicate Reads(mode: Mode, count: nat, ans: Answer, a: Sight, b: Sight)
    requires a.pos <= |a.data|
  {
    var n := if count < |a.data| - a.pos then count else |a.data| - a.pos;
    && b.data == a.data
    && ans.count == |ans.data| && b.pos == a.pos + ans.count
    && (if mode.canRead then ans.res == FrOk && ans.data == a.data[a.pos..a.pos + n]
        else ans.res == FrDenied && ans.data == [])
  }

  /** Writing puts the answered number of bytes over those behind the cursor. It is nothing when the
      file would reach 4 GiB, and else the whole request, unless the file is full: then everything
      up to its end has been overwritten and nothing more fits. */
  ghost predicate Writes(mode: Mode, x: seq<Byte>, ans: Answer, a: Sight, b: Sight)
    requires a.pos <= |a.data|
  {
    && ans.count <= |x| && b.pos == a.pos + ans.count
    && b.data == Splice(a.data, a.pos, x[..ans.count])
    && (if !mode.canWrite then ans.res == FrDenied && ans.count == 0
        else if |a.data| + |x| >= 0x1_0000_0000 then ans.res == FrOk && ans.count == 0
        else ans.res == FrOk && (ans.count == |x| || (b.full && b.pos == |b.data|)))
  }

  /** Seeking moves the cursor. In write mode without a map the file grows up to it, and when it is
      full, as far as it can; otherwise the cursor stops at the end. */
  ghost predicate Seeks(mode: Mode, ofs: nat, ans: Answer, a: Sight, b: Sight)
    requires a.pos <= |a.data|
  {
    var goal := if ofs > |a.data| && (mode.mapped || !mode.canWrite) then |a.data| else ofs;
    && ans.res == FrOk
    && (b.pos == goal || (mode.canWrite && b.pos < goal && b.full && b.pos == |b.data|))
    && |b.data| == Max(|a.data|, b.pos) && b.data[..|a.data|] == a.data
  }

  /** A file that has met no error, without a map or with a right one. */
  ghost predicate Sound(f: File)
    reads f, f.buf, f.fs, f.fs.win, f.cltbl
  {
    f.Valid() && !f.errFlag && (f.cltbl != null ==> Expand(f.mapped) == f.chain && f.chain != [])
  }

  /** The volume's count of free clusters is known and right. */
  ghost predicate Right(f: File)
    requires Sound(f)
    reads f, f.buf, f.fs, f.fs.win, f.cltbl
  {
    f.fs.Counted()
  }

  ghost function ModeOf(f: File): Mode
    reads f
  {
    Mode(f.canRead, f.canWrite, f.cltbl != null)
  }

  ghost function Seen(f: File): (a: Sight)
    requires Sound(f)
    reads f, f.buf, f.fs, f.fs.win, f.cltbl
    ensures a.pos <= |a.data|
  {
    Sight(f.Content(), f.fptr, f.cltbl != null || f.NoFree())
  }

  /** What a run keeps: all sectors outside the FAT, those before it too, but those of the file's own
      clusters, and, when the chain grows, no cluster is taken that the bytes do not need. */
  ghost predicate Keeps(g: Geometry, w: seq<Sector>, c: seq<nat>, w': seq<Sector>, c': seq<nat>, size: nat)
    requires g.Ok() && |w| == g.total && |w'| == g.total
  {
    && c <= c' && OthersKept(g, w, w', c')
    && (c' != c ==> |c'| == ClustersFor(g, size))
  }

  lemma KeepsMore(g: Geometry, w: seq<Sector>, c: seq<nat>, w1: seq<Sector>, c1: seq<nat>, w2: seq<Sector>, c2: seq<nat>,
                  n1: nat, n2: nat)
    requires g.Ok() && |w| == |w1| == |w2| == g.total
    requires Keeps(g, w, c, w1, c1, n1) && Keeps(g, w1, c1, w2, c2, n2) && n1 <= n2 <= |c2| * Bcs(g)
    ensures Keeps(g, w, c, w2, c2, n2)
  {
    hide OthersKept, ClustersFor;
    OthersKeptTrans(g, w, w1, w2, c1, c2);
    if c2 == c1 != c {
      ClustersForCeil(g, n2, |c2|);
      ClustersForCeil(g, n2, ClustersFor(g, n2));
      ClustersForCeil(g, n1, ClustersFor(g, n2));
    }
  }

  lemma KeepsSame(f: File)
    requires f.Base()
    ensures Keeps(f.fs.g, f.Over(), f.chain, f.Over(), f.chain, f.fsize)
  {
  }

  /** The file keeps everything since the time when the volume content was `w` and the chain `c`. */
  ghost predicate KeepsFrom(f: File, w: seq<Sector>, c: seq<nat>)
    requires Sound(f)
    reads f, f.buf, f.fs, f.fs.win, f.cltbl
  {
    |w| == f.fs.g.total && Keeps(f.fs.g, w, c, f.Over(), f.chain, f.fsize)
  }

  method DoRead(f: File, count: nat) returns (ans: Answer)
    requires Sound(f)
    modifies f, f.buf, f.fs, f.fs.win
    ensures Sound(f) && Reads(ModeOf(f), count, ans, old(Seen(f)), Seen(f)) && f.cltbl == old(f.cltbl)
    ensures Keeps(f.fs.g, old(f.Over()), old(f.chain), f.Over(), f.chain, f.fsize) && f.fsize >= old(f.fsize)
    ensures old(Right(f)) ==> Right(f)
  {
    hide File.Base, File.Content, File.Cursor, File.NoFree, File.MapOk;
    var res, data := f.Read(count);
    ans := Answer(res, data, |data|);
  }

  method DoWrite(f: File, x: seq<Byte>) returns (ans: Answer)
    requires Sound(f) && |x| < 0x1_0000_0000
    modifies f, f.buf, f.fs, f.fs.win
    ensures Sound(f) && Writes(ModeOf(f), x, ans, old(Seen(f)), Seen(f)) && f.cltbl == old(f.cltbl)
    ensures Keeps(f.fs.g, old(f.Over()), old(f.chain), f.Over(), f.chain, f.fsize) && f.fsize >= old(f.fsize)
    ensures old(Right(f)) ==> Right(f)
  {
    hide Volume.Fat, File.Base, File.Over, File.Content, File.Cursor, OthersKept, Splice, File.MapOk;
    var res, bw := f.Write(x);
    if f.NoMoreClusters() { f.CursorAtEnd(); }
    if f.chain != [] && f.NoSpare(f.fsize) { f.ChainFits(); }
    ans := Answer(res, [], bw);
  }

  method DoSeek(f: File, ofs: nat) returns (ans: Answer)
    requires Sound(f) && ofs < 0x1_0000_0000 && (f.cltbl != null ==> ofs != CREATE_LINKMAP)
    modifies f, f.buf, f.fs, f.fs.win, f.cltbl
    ensures Sound(f) && Seeks(ModeOf(f), ofs, ans, old(Seen(f)), Seen(f)) && f.cltbl == old(f.cltbl)
    ensures Keeps(f.fs.g, old(f.Over()), old(f.chain), f.Over(), f.chain, f.fsize) && f.fsize >= old(f.fsize)
    ensures old(Right(f)) ==> Right(f)
  {
    hide Volume.Fat, File.Base, File.Over, File.Content, File.Cursor, OthersKept, File.MapOk;
    var res := f.Lseek(ofs);
    if f.NoMoreClusters() { f.CursorAtEnd(); }
    if f.chain != [] && f.NoSpare(f.fsize) { f.ChainFits(); }
    ans := Answer(res, [], 0);
  }

  method Do(f: File, op: Op) returns (ans: Answer)
    requires Sound(f) && Fits(ModeOf(f), op)
    modifies f, f.buf, f.fs, f.fs.win, f.cltbl
    ensures Sound(f) && Does(ModeOf(f), op, ans, old(Seen(f)), Seen(f)) && f.cltbl == old(f.cltbl)
    ensures Keeps(f.fs.g, old(f.Over()), old(f.chain), f.Over(), f.chain, f.fsize) && f.fsize >= old(f.fsize)
    ensures old(Right(f)) ==> Right(f)
  {
    hide Right, File.Base, File.Over, File.Content, File.Cursor, File.NoFree, File.MapOk, Keeps, Reads, Writes, Seeks;
    match op {
      case Read(count) => ans := DoRead(f, count);
      case Write(x) => ans := DoWrite(f, x);
      case Seek(ofs) => ans := DoSeek(f, ofs);
    }
  }

  method DoOne(f: File, op: Op, ghost w: seq<Sector>, ghost c: seq<nat>) returns (ans: Answer)
    requires Sound(f) && Fits(ModeOf(f), op) && KeepsFrom(f, w, c)
    modifies f, f.buf, f.fs, f.fs.win, f.cltbl
    ensures Sound(f) && Does(ModeOf(f), op, ans, old(Seen(f)), Seen(f)) && f.cltbl == old(f.cltbl)
    ensures KeepsFrom(f, w, c)
    ensures old(Right(f)) ==> Right(f)
  {
    hide Right, Volume.Valid, Volume.View, Volume.Fat, Geometry.Ok, Family, Bcs, OnChain, Clusters, File.Cursor, File.Content, File.MapOk, Keeps, Does;
    ghost var w1, c1, size := f.Over(), f.chain, f.fsize;
    ans := Do(f, op);
    KeepsMore(f.fs.g, w, c, w1, c1, f.Over(), f.chain, size, f.fsize);
  }

  /** Any sequence of reads, writes and seeks runs like the same sequence on a byte sequence with
      a cursor, and touches nobody else's data; a right free cluster count stays right. */
  method Run(f: File, ops: seq<Op>) returns (answers: seq<Answer>, ghost sights: seq<Sight>)
    requires Sound(f) && forall i :: 0 <= i < |ops| ==> Fits(ModeOf(f), ops[i])
    modifies f, f.buf, f.fs, f.fs.win, f.cltbl
    ensures Sound(f) && |answers| == |ops| && |sights| == |ops| + 1
    ensures sights[0] == old(Seen(f)) && sights[|ops|] == Seen(f)
    ensures forall i :: 0 <= i < |sights| ==> sights[i].pos <= |sights[i].data|
    ensures forall i :: 0 <= i < |ops| ==> Does(ModeOf(f), ops[i], answers[i], sights[i], sights[i + 1])
    ensures KeepsFrom(f, old(f.Over()), old(f.chain))
    ensures old(Right(f)) ==> Right(f)
  {
    hide Right, Seen, Does, Keeps, File.Base, File.Cursor, File.Over, File.MapOk;
    answers, sights := [], [Seen(f)];
    ghost var w0, c0 := f.Over(), f.chain;
    KeepsSame(f);
    var n := 0;
    while n < |ops|
      invariant 0 <= n <= |ops| && Sound(f) && |answers| == n && |sights| == n + 1
      invariant sights[0] == old(Seen(f)) && sights[n] == Seen(f) && f.cltbl == old(f.cltbl)
      invariant forall i :: 0 <= i < |sights| ==> sights[i].pos <= |sights[i].data|
      invariant forall i :: 0 <= i < n ==> Does(ModeOf(f), ops[i], answers[i], sights[i], sights[i + 1])
      invariant KeepsFrom(f, w0, c0) && (old(Right(f)) ==> Right(f))
    {
      var ans := DoOne(f, ops[n], w0, c0);
      answers, sights := answers + [ans], sights + [Seen(f)];
      n := n + 1;
    }
  }
}
