/** Long file names: a name of up to 255 characters is kept in directory entries of 13 characters
    each, the last part first. After the name comes a 0, and then fillers. */
module LongNames {
  import opened Bytes

  type Wchar = x: int | 0 <= x < 0x1_0000

  const MAX_LFN := 255
  const FILLER: Wchar := 0xFFFF
  const LLE := 0x40
  const AM_LFN := 0x0F

  /** Where the characters lie in an entry. */
  const LfnOfs: seq<nat> := [1, 3, 5, 7, 9, 14, 16, 18, 20, 22, 24, 28, 30]

  lemma Offsets(s: nat)
    requires s < 13
    ensures 1 <= LfnOfs[s] <= 30
    ensures LfnOfs[s] + 2 <= 11 || (14 <= LfnOfs[s] && LfnOfs[s] + 2 <= 26) || 28 <= LfnOfs[s]
    ensures forall t :: 0 <= t < s ==> LfnOfs[t] + 2 <= LfnOfs[s]
  {
  }

  function CharAt(e: seq<Byte>, s: nat): Wchar
    requires |e| == 32 && s < 13
  {
    Offsets(s);
    Word(e[LfnOfs[s]], e[LfnOfs[s] + 1])
  }

  /** The flag of the last part of a name. */
  predicate IsLast(e: seq<Byte>)
    requires |e| == 32
  {
    e[0] / LLE % 2 == 1
  }

  /** Where the part of an entry begins in the name; in the source a 32-bit number without sign. */
  function CmpFirst(e: seq<Byte>): nat
    requires |e| == 32
  {
    var ord: int := e[0];
    ((if IsLast(e) then ord - LLE else ord) - 1) * 13 % 0x1_0000_0000
  }

  function PickFirst(e: seq<Byte>): nat
    requires |e| == 32
  {
    var ord: int := e[0];
    (ord % 0x40 - 1) * 13 % 0x1_0000_0000
  }

  /** How many characters of an entry are looked at from the `s`-th one on: up to the first 0, which
      counts. */
  function UsedFrom(e: seq<Byte>, s: nat): (u: nat)
    requires |e| == 32 && s <= 13
    ensures u <= 13 - s && (s < 13 ==> u > 0)
    ensures forall t :: s <= t < s + u - 1 ==> CharAt(e, t) != 0
    ensures s + u < 13 ==> CharAt(e, s + u - 1) == 0
    decreases 13 - s
  {
    if s == 13 then 0 else if CharAt(e, s) == 0 then 1 else 1 + UsedFrom(e, s + 1)
  }

  function Used(e: seq<Byte>): nat
    requires |e| == 32
  {
    UsedFrom(e, 0)
  }

  lemma {:induction false} UsedIs(e: seq<Byte>, s: nat, u: nat)
    requires |e| == 32 && s < u <= 13
    requires forall t :: s <= t < u - 1 ==> CharAt(e, t) != 0
    requires u < 13 ==> CharAt(e, u - 1) == 0
    ensures UsedFrom(e, s) == u - s
    decreases u - s
  {
    if s + 1 < u {
      UsedIs(e, s + 1, u);
    }
  }

  ghost predicate Filled(e: seq<Byte>)
    requires |e| == 32
  {
    forall s :: Used(e) <= s < 13 ==> CharAt(e, s) == FILLER
  }

  // ---- what the three routines do with one entry ------------------------------------------------------

  /** When pick_lfn takes an entry. */
  ghost predicate PickOk(e: seq<Byte>)
    requires |e| == 32
  {
    Filled(e) && PickFirst(e) + Used(e) + (if IsLast(e) then 1 else 0) <= MAX_LFN
  }

  /** When cmp_lfn accepts an entry. */
  ghost predicate CmpOk(up: Wchar -> Wchar, name: seq<Wchar>, e: seq<Byte>)
    requires |name| == MAX_LFN + 1 && |e| == 32
  {
    && Filled(e) && CmpFirst(e) + Used(e) <= MAX_LFN
    && (forall s :: 0 <= s < Used(e) ==> up(CharAt(e, s)) == up(name[CmpFirst(e) + s]))
    && (IsLast(e) && Used(e) == 13 && CharAt(e, 12) != 0 ==> name[CmpFirst(e) + 13] == 0)
  }

  /** The `j`-th character of what is stored for `p`. */
  function NameChar(p: seq<Wchar>, j: nat): Wchar {
    if j < |p| then p[j] else if j == |p| then 0 else FILLER
  }

  /** The entry with number `ord` of the name `p`. */
  ghost predicate EntryHolds(e: seq<Byte>, p: seq<Wchar>, ord: nat, sum: Byte) {
    && |e| == 32 && ord > 0
    && e[0] == ord + (if |p| <= 13 * ord then LLE else 0)
    && e[11] == AM_LFN && e[12] == 0 && e[13] == sum && e[26] == 0 && e[27] == 0
    && forall s :: 0 <= s < 13 ==> CharAt(e, s) == NameChar(p, 13 * (ord - 1) + s)
  }

  /** The bytes of an entry that hold characters. */
  function Text(e: seq<Byte>): (x: seq<Byte>)
    requires |e| == 32
    ensures |x| == 26
  {
    e[1..11] + e[14..26] + e[28..32]
  }

  /** An entry, byte by byte: its number, with 64 added on the last part; the attributes 15; the sum; and
      in the three gaps, lowest byte first, the 13 characters, a 0 behind the name and 65535 after it. */
  lemma EntryBytes(e: seq<Byte>, p: seq<Wchar>, ord: nat, sum: Byte)
    requires EntryHolds(e, p, ord, sum)
    ensures e[0] == ord + (if |p| <= 13 * ord then 64 else 0) && e[11] == 15 && e[12] == 0 && e[13] == sum && e[26..28] == [0, 0]
    ensures forall t :: 0 <= t < 13 ==> Number(Text(e)[2 * t..2 * t + 2]) == NameChar(p, 13 * (ord - 1) + t)
    ensures forall j :: 0 <= j ==> NameChar(p, j) == if j < |p| then p[j] else if j == |p| then 0 else 65535
  {
    var x := Text(e);
    forall t | 0 <= t < 13
      ensures Number(x[2 * t..2 * t + 2]) == NameChar(p, 13 * (ord - 1) + t)
    {
      Number2(x[2 * t..2 * t + 2]);
      assert CharAt(e, t) == NameChar(p, 13 * (ord - 1) + t);
      TextAt(e, t);
    }
  }

  lemma TextAt(e: seq<Byte>, t: nat)
    requires |e| == 32 && t < 13
    ensures LfnOfs[t] + 1 < 32 && Text(e)[2 * t] == e[LfnOfs[t]] && Text(e)[2 * t + 1] == e[LfnOfs[t] + 1]
  {
    var a, b, c := e[1..11], e[14..26], e[28..32];
    if t < 5 {
      assert LfnOfs[t] == 1 + 2 * t;
      assert (a + b + c)[2 * t] == a[2 * t] && (a + b + c)[2 * t + 1] == a[2 * t + 1];
    } else if t < 11 {
      assert LfnOfs[t] == 4 + 2 * t;
      assert (a + b + c)[2 * t] == b[2 * t - 10] && (a + b + c)[2 * t + 1] == b[2 * t - 9];
    } else {
      assert LfnOfs[t] == 6 + 2 * t;
      assert (a + b + c)[2 * t] == c[2 * t - 22] && (a + b + c)[2 * t + 1] == c[2 * t - 21];
    }
  }

  predicate ProperChar(c: Wchar) {
    c != 0 && c != FILLER
  }

  /** A name that the file system takes. */
  ghost predicate Name(p: seq<Wchar>) {
    0 < |p| <= MAX_LFN && forall i :: 0 <= i < |p| ==> ProperChar(p[i])
  }

  /** The name buffer holds `p`. */
  ghost predicate Named(b: seq<Wchar>, p: seq<Wchar>) {
    |p| < |b| && b[..|p|] == p && b[|p|] == 0
  }

  /** How many entries the name takes. */
  function EntriesFor(p: seq<Wchar>): nat {
    (|p| + 12) / 13
  }

  lemma EntryUsed(e: seq<Byte>, p: seq<Wchar>, ord: nat, sum: Byte)
    requires Name(p) && EntryHolds(e, p, ord, sum) && ord <= EntriesFor(p)
    ensures IsLast(e) <==> ord == EntriesFor(p)
    ensures CmpFirst(e) == PickFirst(e) == 13 * (ord - 1) && Filled(e)
    ensures Used(e) == if 13 * ord <= |p| then 13 else |p| + 1 - 13 * (ord - 1)
  {
    hide UsedFrom, CharAt;
    var at := 13 * (ord - 1);
    var u := if 13 * ord <= |p| then 13 else |p| + 1 - at;
    OrdIs(e[0], ord, |p| <= 13 * ord);
    forall t | 0 <= t < 13
      ensures t < u - 1 ==> CharAt(e, t) != 0
      ensures t == u - 1 && u < 13 ==> CharAt(e, t) == 0
      ensures u <= t ==> CharAt(e, t) == FILLER
    {
      assert CharAt(e, t) == NameChar(p, at + t);
      if at + t < |p| {
        assert ProperChar(p[at + t]);
      }
    }
    UsedIs(e, 0, u);
  }

  lemma OrdIs(o: int, ord: nat, last: bool)
    requires ord <= 20 && o == ord + if last then LLE else 0
    ensures (o / LLE % 2 == 1 <==> last) && o % 0x40 == ord
  {
  }

  // ---- one entry ------------------------------------------------------------------------------------

  /** Stores a word at `d`. */
  method StoreWord(dir: array<Byte>, d: nat, w: Wchar)
    requires d + 2 <= dir.Length
    modifies dir
    ensures Word(dir[d], dir[d + 1]) == w
    ensures forall i :: 0 <= i < dir.Length && i != d && i != d + 1 ==> dir[i] == old(dir[i])
  {
    dir[d] := w % 0x100;
    dir[d + 1] := w / 0x100;
  }

  /** fit_lfn: writes the entry with number `ord` of the name in the buffer. */
  method FitLfn(lfn: array<Wchar>, dir: array<Byte>, d: nat, ord: nat, sum: Byte, ghost p: seq<Wchar>)
    requires lfn.Length == MAX_LFN + 1 && Named(lfn[..], p) && Name(p)
    requires d + 32 <= dir.Length && 0 < ord <= EntriesFor(p)
    modifies dir
    ensures EntryHolds(dir[d..d + 32], p, ord, sum)
    ensures forall i :: 0 <= i < dir.Length && !(d <= i < d + 32) ==> dir[i] == old(dir[i])
  {
    dir[d + 13] := sum;
    dir[d + 11] := AM_LFN;
    dir[d + 12] := 0;
    dir[d + 26], dir[d + 27] := 0, 0;
    var i := (ord - 1) * 13;
    var s := 0;
    var wc: Wchar := 0;
    while s < 13
      invariant 0 <= s <= 13 && Fitting(p, ord, s, i, wc)
      invariant dir[d + 13] == sum && dir[d + 11] == AM_LFN && dir[d + 12] == dir[d + 26] == dir[d + 27] == 0
      invariant AllStored(dir[..], d, p, ord, s)
      invariant forall i :: 0 <= i < dir.Length && !(d <= i < d + 32) ==> dir[i] == old(dir[i])
    {
      NextChar(lfn[..], p, ord, s, i, wc);
      if wc != FILLER {
        wc := lfn[i];
        i := i + 1;
      }
      StoreChar(dir, d, s, wc, ord, p);
      if wc == 0 { wc := FILLER; }
      s := s + 1;
    }
    NextChar(lfn[..], p, ord, 13, i, wc);
    EntryDone(dir[..], d, p, ord, sum);
    label Stored:
    dir[d] := if wc == FILLER || lfn[i] == 0 then ord + LLE else ord;
    assert dir[..] == old@Stored(dir[..])[d := dir[d]];
  }

  /** The number of the entry is put last. */
  lemma EntryDone(b: seq<Byte>, d: nat, p: seq<Wchar>, ord: nat, sum: Byte)
    requires d + 32 <= |b| && 0 < ord <= EntriesFor(p) && |p| <= MAX_LFN && AllStored(b, d, p, ord, 13)
    requires b[d + 13] == sum && b[d + 11] == AM_LFN && b[d + 12] == b[d + 26] == b[d + 27] == 0
    ensures EntryHolds(b[d := ord + (if |p| <= 13 * ord then LLE else 0)][d..d + 32], p, ord, sum)
  {
    var e := b[d := ord + (if |p| <= 13 * ord then LLE else 0)][d..d + 32];
    forall t | 0 <= t < 13
      ensures CharAt(e, t) == NameChar(p, 13 * (ord - 1) + t)
    {
      Offsets(t);
      assert StoredAt(b, d, p, ord, t);
    }
  }

  lemma NextChar(b: seq<Wchar>, p: seq<Wchar>, ord: nat, s: nat, i: int, wc: Wchar)
    requires |b| == MAX_LFN + 1 && Named(b, p) && Name(p) && 0 < ord <= EntriesFor(p) && s <= 13
    requires Fitting(p, ord, s, i, wc)
    ensures var at := 13 * (ord - 1) + s;
      && (wc == FILLER ==> NameChar(p, at) == FILLER && at > |p|)
      && (wc != FILLER ==> 0 <= i < |b| && b[i] == NameChar(p, at) && (b[i] == 0 <==> at == |p|) && b[i] != FILLER)
  {
    var at := 13 * (ord - 1) + s;
    if at < |p| {
      assert b[..|p|][at] == p[at];
      assert ProperChar(p[at]);
    }
  }

  /** Puts the `s`-th character of an entry. */
  method StoreChar(dir: array<Byte>, d: nat, s: nat, wc: Wchar, ghost ord: nat, ghost p: seq<Wchar>)
    requires d + 32 <= dir.Length && s < 13 && ord > 0 && wc == NameChar(p, 13 * (ord - 1) + s)
    modifies dir
    ensures AllStored(old(dir[..]), d, p, ord, s) ==> AllStored(dir[..], d, p, ord, s + 1)
    ensures forall i :: 0 <= i < dir.Length && !(d <= i < d + 32) ==> dir[i] == old(dir[i])
    ensures dir[d + 11] == old(dir[d + 11]) && dir[d + 12] == old(dir[d + 12]) && dir[d + 13] == old(dir[d + 13])
    ensures dir[d + 26] == old(dir[d + 26]) && dir[d + 27] == old(dir[d + 27])
  {
    Offsets(s);
    StoreWord(dir, d + LfnOfs[s], wc);
    ghost var b := old(dir[..]);
    forall t | 0 <= t < s && StoredAt(b, d, p, ord, t)
      ensures StoredAt(dir[..], d, p, ord, t)
    {
      Offsets(t);
    }
  }

  ghost predicate StoredAt(b: seq<Byte>, d: nat, p: seq<Wchar>, ord: nat, t: nat)
    requires d + 32 <= |b| && t < 13 && ord > 0
  {
    Offsets(t);
    Word(b[d + LfnOfs[t]], b[d + LfnOfs[t] + 1]) == NameChar(p, 13 * (ord - 1) + t)
  }

  ghost predicate AllStored(b: seq<Byte>, d: nat, p: seq<Wchar>, ord: nat, s: nat)
    requires d + 32 <= |b| && s <= 13 && ord > 0
  {
    forall t :: 0 <= t < s ==> StoredAt(b, d, p, ord, t)
  }

  /** How far fit_lfn has come in the name. */
  ghost predicate Fitting(p: seq<Wchar>, ord: nat, s: nat, i: int, wc: Wchar)
    requires ord > 0
  {
    var at := 13 * (ord - 1) + s;
    && (wc == FILLER <==> at > |p|)
    && i == (if at > |p| then |p| + 1 else at)
  }

  /** How far pick_lfn and cmp_lfn have come in an entry whose part begins at `first`: `ended` says
      that the 0 has been seen. */
  ghost predicate Scanning(e: seq<Byte>, first: nat, s: nat, i: int, ended: bool)
    requires |e| == 32 && s <= 13
  {
    && i == first + (if s < Used(e) then s else Used(e))
    && (ended <==> Used(e) <= s && CharAt(e, Used(e) - 1) == 0)
    && forall t :: Used(e) <= t < s ==> CharAt(e, t) == FILLER
  }

  lemma ScanNext(e: seq<Byte>, first: nat, s: nat, i: int, ended: bool)
    requires |e| == 32 && s < 13 && Scanning(e, first, s, i, ended)
    ensures ended <==> Used(e) <= s
    ensures !ended ==> Scanning(e, first, s + 1, i + 1, CharAt(e, s) == 0)
    ensures ended && CharAt(e, s) == FILLER ==> Scanning(e, first, s + 1, i, true)
    ensures ended && Filled(e) ==> CharAt(e, s) == FILLER
  {
  }

  /** What a successful pick_lfn leaves in the name buffer. */
  ghost predicate Picked(b0: seq<Wchar>, b1: seq<Wchar>, e: seq<Byte>)
    requires |e| == 32 && PickFirst(e) + Used(e) + (if IsLast(e) then 1 else 0) <= |b0|
  {
    var at, u := PickFirst(e), Used(e);
    && |b1| == |b0|
    && (forall s :: 0 <= s < u ==> b1[at + s] == CharAt(e, s))
    && (IsLast(e) ==> b1[at + u] == 0)
    && forall j :: 0 <= j < |b0| && !(at <= j < at + u + (if IsLast(e) then 1 else 0)) ==> b1[j] == b0[j]
  }

  /** pick_lfn. */
  method PickLfn(lfn: array<Wchar>, dir: array<Byte>, d: nat) returns (ok: bool)
    requires lfn.Length == MAX_LFN + 1 && d + 32 <= dir.Length
    modifies lfn
    ensures ok <==> PickOk(dir[d..d + 32])
    ensures ok ==> Picked(old(lfn[..]), lfn[..], dir[d..d + 32])
  {
    hide UsedFrom, CharAt;
    ghost var e := dir[d..d + 32];
    var ord: int := dir[d];
    var i := (ord % 0x40 - 1) * 13 % 0x1_0000_0000;
    ghost var at := i;
    assert at == PickFirst(e);
    var s := 0;
    var wc: Wchar := 1;
    while s < 13
      invariant 0 <= s <= 13 && Scanning(e, at, s, i, wc == 0) && (s > 0 ==> i <= MAX_LFN)
      invariant forall t :: 0 <= t < s && t < Used(e) ==> lfn[at + t] == CharAt(e, t)
      invariant forall j :: 0 <= j < lfn.Length && !(at <= j < i) ==> lfn[j] == old(lfn[j])
    {
      var uc := ReadChar(dir, d, s);
      ScanNext(e, at, s, i, wc == 0);
      if wc != 0 {
        if i >= MAX_LFN { return false; }
        lfn[i] := uc;
        wc := uc;
        i := i + 1;
      } else {
        if uc != FILLER { return false; }
      }
      s := s + 1;
    }
    if dir[d] / LLE % 2 == 1 {
      if i >= MAX_LFN { return false; }
      lfn[i] := 0;
    }
    ok := true;
  }

  method ReadChar(dir: array<Byte>, d: nat, s: nat) returns (c: Wchar)
    requires d + 32 <= dir.Length && s < 13
    ensures c == CharAt(dir[d..d + 32], s)
  {
    Offsets(s);
    c := Word(dir[d + LfnOfs[s]], dir[d + LfnOfs[s] + 1]);
  }

  /** Upper case keeps the end of a name. */
  ghost predicate Proper(up: Wchar -> Wchar) {
    forall c :: up(c) == 0 <==> c == 0
  }

  /** cmp_lfn; `up` is ff_wtoupper. */
  method CmpLfn(up: Wchar -> Wchar, lfn: array<Wchar>, dir: array<Byte>, d: nat) returns (ok: bool)
    requires lfn.Length == MAX_LFN + 1 && d + 32 <= dir.Length && Proper(up)
    ensures ok <==> CmpOk(up, lfn[..], dir[d..d + 32])
  {
    hide UsedFrom, CharAt;
    ghost var e := dir[d..d + 32];
    var last := dir[d] / LLE % 2 == 1;
    var ord: int := dir[d];
    var i := ((if last then ord - LLE else ord) - 1) * 13 % 0x1_0000_0000;
    ghost var at := i;
    assert at == CmpFirst(e);
    var s := 0;
    var wc: Wchar := 1;
    while s < 13
      invariant 0 <= s <= 13 && Scanning(e, at, s, i, wc == 0) && (s > 0 ==> i <= MAX_LFN)
      invariant forall t :: 0 <= t < s && t < Used(e) ==> up(CharAt(e, t)) == up(lfn[at + t])
    {
      var uc := ReadChar(dir, d, s);
      ScanNext(e, at, s, i, wc == 0);
      if wc != 0 {
        wc := up(uc);
        if i >= MAX_LFN || wc != up(lfn[i]) { return false; }
        i := i + 1;
      } else {
        if uc != FILLER { return false; }
      }
      s := s + 1;
    }
    if last && wc != 0 && lfn[i] != 0 { return false; }
    ok := true;
  }

  // ---- a whole name ----------------------------------------------------------------------------------

  /** The entries from the first one on hold the name, its last part first. */
  ghost predicate Stored(b: seq<Byte>, p: seq<Wchar>, sum: Byte) {
    32 * EntriesFor(p) <= |b| && StoredUpTo(b, p, sum, EntriesFor(p))
  }

  ghost predicate StoredUpTo(b: seq<Byte>, p: seq<Wchar>, sum: Byte, n: nat)
    requires n <= EntriesFor(p) && 32 * n <= |b|
  {
    forall k :: 0 <= k < n ==> EntryHolds(Entry(b, k), p, EntriesFor(p) - k, sum)
  }

  function Entry(b: seq<Byte>, k: nat): seq<Byte>
    requires 32 * k + 32 <= |b|
  {
    b[32 * k..32 * k + 32]
  }

  /** The flag of the last part is on the first entry and on no other one. */
  lemma OneIsLast(b: seq<Byte>, p: seq<Wchar>, sum: Byte, k: nat)
    requires Name(p) && Stored(b, p, sum) && k < EntriesFor(p)
    ensures IsLast(Entry(b, k)) <==> k == 0
  {
    assert EntryHolds(Entry(b, k), p, EntriesFor(p) - k, sum);
    EntryUsed(Entry(b, k), p, EntriesFor(p) - k, sum);
  }

  /** The part of dir_register that counts the characters and writes the entries. */
  method StoreName(lfn: array<Wchar>, dir: array<Byte>, sum: Byte, ghost p: seq<Wchar>)
    requires lfn.Length == MAX_LFN + 1 && Named(lfn[..], p) && Name(p) && 32 * EntriesFor(p) <= dir.Length
    modifies dir
    ensures Stored(dir[..], p, sum)
    ensures forall i :: 32 * EntriesFor(p) <= i < dir.Length ==> dir[i] == old(dir[i])
  {
    hide EntryHolds;
    var ne := CountChars(lfn, p);
    ne := (ne + 25) / 13;
    ne := ne - 1;
    var k := 0;
    while ne > 0
      invariant 0 <= k == EntriesFor(p) - ne && ne >= 0
      invariant StoredUpTo(dir[..], p, sum, k)
      invariant forall i :: 32 * EntriesFor(p) <= i < dir.Length ==> dir[i] == old(dir[i])
    {
      ghost var b := dir[..];
      FitLfn(lfn, dir, 32 * k, ne, sum, p);
      OneMore(b, dir[..], p, sum, k);
      k, ne := k + 1, ne - 1;
    }
  }

  lemma OneMore(b: seq<Byte>, b': seq<Byte>, p: seq<Wchar>, sum: Byte, k: nat)
    requires k < EntriesFor(p) && 32 * k + 32 <= |b| == |b'| && StoredUpTo(b, p, sum, k)
    requires EntryHolds(b'[32 * k..32 * k + 32], p, EntriesFor(p) - k, sum)
    requires forall i :: 0 <= i < 32 * k ==> b'[i] == b[i]
    ensures StoredUpTo(b', p, sum, k + 1)
  {
    hide EntryHolds;
    forall l | 0 <= l < k + 1
      ensures EntryHolds(Entry(b', l), p, EntriesFor(p) - l, sum)
    {
      if l < k {
        assert Entry(b', l) == Entry(b, l);
      }
    }
  }

  method CountChars(lfn: array<Wchar>, ghost p: seq<Wchar>) returns (n: nat)
    requires Named(lfn[..], p) && Name(p)
    ensures n == |p|
  {
    n := 0;
    EndOfName(lfn[..], p, 0);
    while lfn[n] != 0
      invariant n <= |p| && (lfn[n] == 0 <==> n == |p|)
      decreases |p| - n
    {
      n := n + 1;
      EndOfName(lfn[..], p, n);
    }
  }

  lemma EndOfName(b: seq<Wchar>, p: seq<Wchar>, n: nat)
    requires Named(b, p) && Name(p) && n <= |p|
    ensures b[n] == 0 <==> n == |p|
  {
    if n < |p| {
      assert b[..|p|][n] == p[n] && ProperChar(p[n]);
    }
  }

  /** The buffer holds the part of the name from `from` on. */
  ghost predicate HoldsFrom(b: seq<Wchar>, p: seq<Wchar>, from: int)
    requires |p| < |b|
  {
    (from < |p| ==> b[|p|] == 0) && forall j :: 0 <= j < |p| && from <= j ==> b[j] == p[j]
  }

  lemma PartPicked(b0: seq<Wchar>, b1: seq<Wchar>, e: seq<Byte>, p: seq<Wchar>, ord: nat, sum: Byte)
    requires Name(p) && |p| < |b0| && EntryHolds(e, p, ord, sum) && ord <= EntriesFor(p) && PickOk(e)
    requires |b0| == MAX_LFN + 1 && Picked(b0, b1, e) && HoldsFrom(b0, p, 13 * ord)
    ensures HoldsFrom(b1, p, 13 * (ord - 1))
  {
    hide UsedFrom, CharAt;
    EntryUsed(e, p, ord, sum);
    var at := 13 * (ord - 1);
    if at <= |p| < at + Used(e) {
      assert b1[at + (|p| - at)] == CharAt(e, |p| - at) == NameChar(p, |p|);
    }
    forall j | 0 <= j < |p| && at <= j
      ensures b1[j] == p[j]
    {
      if j < 13 * ord {
        assert b1[at + (j - at)] == CharAt(e, j - at) == NameChar(p, j);
      }
    }
  }

  /** What dir_read and dir_find keep while they go over the entries of a name: the number of the next
      part, or 0xFF when something did not fit. */
  ghost predicate Following(k: nat, n: nat, ok: bool, ord: Byte, sum: Byte, want: Byte) {
    k > 0 ==> sum == want && ord == (if ok then n - k else 0xFF)
  }

  lemma FirstPart(e: seq<Byte>, p: seq<Wchar>, ord: nat, sum: Byte)
    requires Name(p) && EntryHolds(e, p, ord, sum) && ord <= EntriesFor(p)
    ensures ord <= 20 && (IsLast(e) <==> ord == EntriesFor(p)) && e[13] == sum
    ensures e[0] == if IsLast(e) then ord + LLE else ord
    ensures PickOk(e) <==> !(ord == EntriesFor(p) && |p| > MAX_LFN - 2)
  {
    EntryUsed(e, p, ord, sum);
  }

  /** The part of dir_read that collects a long name from its entries. It succeeds exactly when the
      name has at most 253 characters, and then the buffer holds the name. */
  method ReadName(lfn: array<Wchar>, dir: array<Byte>, n: nat, ghost p: seq<Wchar>, ghost want: Byte) returns (r: bool)
    requires lfn.Length == MAX_LFN + 1 && Name(p) && n == EntriesFor(p) && Stored(dir[..], p, want)
    modifies lfn
    ensures r <==> |p| <= MAX_LFN - 2
    ensures r ==> Named(lfn[..], p)
  {
    hide PickOk, EntryHolds, Picked;
    var ord: Byte, sum: Byte := 0xFF, 0xFF;
    for k := 0 to n
      invariant Following(k, n, |p| <= MAX_LFN - 2, ord, sum, want)
      invariant |p| <= MAX_LFN - 2 ==> HoldsFrom(lfn[..], p, 13 * (n - k))
    {
      ghost var e := Entry(dir[..], k);
      assert EntryHolds(e, p, n - k, want) && e == dir[32 * k..32 * k + 32];
      FirstPart(e, p, n - k, want);
      ghost var b := lfn[..];
      var c := dir[32 * k];
      if c / LLE % 2 == 1 {
        sum := dir[32 * k + 13];
        c := c - LLE;
        ord := c;
      }
      var ok := false;
      if c == ord && sum == dir[32 * k + 13] {
        ok := PickLfn(lfn, dir, 32 * k);
      }
      if ok {
        PartPicked(b, lfn[..], e, p, n - k, want);
      }
      ord := if ok then ord - 1 else 0xFF;
    }
    r := ord == 0;
    if r {
      WholeName(lfn[..], p);
    }
  }

  lemma WholeName(b: seq<Wchar>, p: seq<Wchar>)
    requires Name(p) && |b| == MAX_LFN + 1 && HoldsFrom(b, p, 0)
    ensures Named(b, p)
  {
    assert b[..|p|] == p;
  }

  // ---- comparing names --------------------------------------------------------------------------------

  /** The names are equal when upper and lower case do not matter. */
  ghost predicate SameName(up: Wchar -> Wchar, p: seq<Wchar>, q: seq<Wchar>) {
    |p| == |q| && forall i :: 0 <= i < |p| ==> up(p[i]) == up(q[i])
  }

  /** All the entries of `p` are accepted for the name in the buffer. */
  ghost predicate AllAccepted(up: Wchar -> Wchar, name: seq<Wchar>, b: seq<Byte>, p: seq<Wchar>, k: nat)
    requires |name| == MAX_LFN + 1 && 32 * k <= |b|
  {
    forall l :: 0 <= l < k ==> CmpOk(up, name, Entry(b, l))
  }

  /** What acceptance of one part says about the name. */
  ghost predicate PartSame(up: Wchar -> Wchar, name: seq<Wchar>, p: seq<Wchar>, ord: nat)
    requires |p| < |name|
  {
    && (forall j :: 0 <= j < |p| && 13 * (ord - 1) <= j < 13 * ord ==> up(p[j]) == up(name[j]))
    && (13 * (ord - 1) < |p| <= 13 * ord ==> name[|p|] == 0)
  }

  lemma PartAccepted(up: Wchar -> Wchar, name: seq<Wchar>, e: seq<Byte>, p: seq<Wchar>, ord: nat, sum: Byte)
    requires Proper(up) && |name| == MAX_LFN + 1
    requires Name(p) && EntryHolds(e, p, ord, sum) && ord <= EntriesFor(p)
    ensures CmpOk(up, name, e) <==> PartSame(up, name, p, ord) && !(ord == EntriesFor(p) && |p| == MAX_LFN)
  {
    hide UsedFrom, CharAt;
    EntryUsed(e, p, ord, sum);
    var at := 13 * (ord - 1);
    if CmpOk(up, name, e) {
      forall j | 0 <= j < |p| && at <= j < 13 * ord
        ensures up(p[j]) == up(name[j])
      {
        assert CharAt(e, j - at) == NameChar(p, j) && up(CharAt(e, j - at)) == up(name[at + (j - at)]);
      }
      if at < |p| < 13 * ord {
        assert CharAt(e, |p| - at) == NameChar(p, |p|) && up(CharAt(e, |p| - at)) == up(name[at + (|p| - at)]);
      } else if |p| == 13 * ord {
        assert CharAt(e, 12) == NameChar(p, at + 12) && ProperChar(p[at + 12]);
      }
    } else if PartSame(up, name, p, ord) && !(ord == EntriesFor(p) && |p| == MAX_LFN) {
      forall s | 0 <= s < Used(e)
        ensures up(CharAt(e, s)) == up(name[at + s])
      {
        assert CharAt(e, s) == NameChar(p, at + s);
      }
    }
  }

  /** The entries of a name are all accepted exactly when it is the name in the buffer, and has fewer
      than 255 characters. */
  lemma AcceptedIffSame(up: Wchar -> Wchar, name: seq<Wchar>, q: seq<Wchar>, b: seq<Byte>, p: seq<Wchar>, sum: Byte)
    requires Proper(up) && |name| == MAX_LFN + 1 && Named(name, q) && Name(q)
    requires Name(p) && Stored(b, p, sum)
    ensures AllAccepted(up, name, b, p, EntriesFor(p)) <==> SameName(up, p, q) && |p| < MAX_LFN
  {
    hide CmpOk, EntryHolds, Used;
    var n := EntriesFor(p);
    forall k | 0 <= k < n
      ensures CmpOk(up, name, Entry(b, k)) <==> PartSame(up, name, p, n - k) && !(k == 0 && |p| == MAX_LFN)
    {
      assert EntryHolds(Entry(b, k), p, n - k, sum);
      PartAccepted(up, name, Entry(b, k), p, n - k, sum);
    }
    if AllAccepted(up, name, b, p, n) {
      assert CmpOk(up, name, Entry(b, 0));
      forall ord | 0 < ord <= n
        ensures PartSame(up, name, p, ord)
      {
        assert CmpOk(up, name, Entry(b, n - ord));
      }
      SamePartsSame(up, name, q, p);
    }
    if SameName(up, p, q) && |p| < MAX_LFN {
      forall ord | 0 < ord <= n
        ensures PartSame(up, name, p, ord)
      {
        assert forall j :: 0 <= j < |p| ==> name[j] == name[..|q|][j] == q[j];
      }
    }
  }

  lemma SamePartsSame(up: Wchar -> Wchar, name: seq<Wchar>, q: seq<Wchar>, p: seq<Wchar>)
    requires Proper(up) && |name| == MAX_LFN + 1 && Named(name, q) && Name(q) && Name(p)
    requires forall ord :: 0 < ord <= EntriesFor(p) ==> PartSame(up, name, p, ord)
    ensures SameName(up, p, q)
  {
    forall j | 0 <= j < |p|
      ensures up(p[j]) == up(name[j]) && name[j] != 0
    {
      assert PartSame(up, name, p, j / 13 + 1) && ProperChar(p[j]);
    }
    assert PartSame(up, name, p, EntriesFor(p));
    assert name[|p|] == 0;
    if |p| < |q| {
      EndOfName(name, q, |p|);
    }
    assert forall j :: 0 <= j < |q| ==> name[j] == name[..|q|][j] == q[j];
  }

  /** The part of dir_find that compares a long name with the entries of `p`. */
  method MatchName(up: Wchar -> Wchar, lfn: array<Wchar>, dir: array<Byte>, n: nat,
                   ghost q: seq<Wchar>, ghost p: seq<Wchar>, ghost want: Byte) returns (r: bool)
    requires Proper(up) && lfn.Length == MAX_LFN + 1 && Named(lfn[..], q) && Name(q)
    requires Name(p) && n == EntriesFor(p) && Stored(dir[..], p, want)
    ensures r <==> SameName(up, p, q) && |p| < MAX_LFN
  {
    hide CmpOk, EntryHolds, Used, PickOk;
    AcceptedIffSame(up, lfn[..], q, dir[..], p, want);
    var ord: Byte, sum: Byte := 0xFF, 0xFF;
    for k := 0 to n
      invariant Following(k, n, AllAccepted(up, lfn[..], dir[..], p, k), ord, sum, want)
    {
      ghost var e := Entry(dir[..], k);
      assert EntryHolds(e, p, n - k, want) && e == dir[32 * k..32 * k + 32];
      FirstPart(e, p, n - k, want);
      var c := dir[32 * k];
      if c / LLE % 2 == 1 {
        sum := dir[32 * k + 13];
        c := c - LLE;
        ord := c;
      }
      var ok := false;
      if c == ord && sum == dir[32 * k + 13] {
        ok := CmpLfn(up, lfn, dir, 32 * k);
      }
      ord := if ok then ord - 1 else 0xFF;
    }
    r := ord == 0;
  }

  // ---- from the entry to the name and back ------------------------------------------------------------

  /** A name is stored, looked for, and read back. */
  method RoundTrip(up: Wchar -> Wchar, p: seq<Wchar>, sum: Byte) returns (found: bool, read: bool, name: seq<Wchar>)
    requires Proper(up) && Name(p)
    ensures found <==> |p| < MAX_LFN
    ensures read <==> |p| < MAX_LFN - 1
    ensures read ==> name == p
  {
    hide Stored;
    var lfn := new Wchar[MAX_LFN + 1](i => if 0 <= i < |p| then p[i] else 0);
    var dir := new Byte[32 * EntriesFor(p)](_ => 0);
    assert lfn[..][..|p|] == p;
    StoreName(lfn, dir, sum, p);
    found := MatchName(up, lfn, dir, EntriesFor(p), p, p, sum);
    var back := new Wchar[MAX_LFN + 1](_ => 0);
    read := ReadName(back, dir, EntriesFor(p), p, sum);
    name := if read then back[..|p|] else [];
  }

  /** A name of 254 letters is found but not read, one of 255 not even found. */
  method LongestNames(up: Wchar -> Wchar) returns (found1: bool, read1: bool, found2: bool, read2: bool)
    requires Proper(up)
    ensures found1 && !read1 && !found2 && !read2
  {
    var name;
    found1, read1, name := RoundTrip(up, seq(254, _ => 0x41), 0);
    found2, read2, name := RoundTrip(up, seq(255, _ => 0x41), 0);
  }
}
