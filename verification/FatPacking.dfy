/** The three packings of FAT entries into bytes, and what one changed entry does to the
    others. A FAT12 entry takes one and a half bytes, so neighbours share a byte and an entry
    may straddle two sectors. */
module FatPacking {
  import opened Bytes
  import opened FatGeometry

  /** Position of the first byte of entry `c`. */
  function EntryPos(kind: FatKind, c: nat): nat {
    match kind
    case Fat12 => c + c / 2
    case Fat16 => c * 2
    case Fat32 => c * 4
  }

  function EntryBytes(kind: FatKind): nat {
    match kind
    case Fat12 => 2
    case Fat16 => 2
    case Fat32 => 4
  }

  /** The bytes `b` of a FAT hold `n` entries. */
  predicate Holds(kind: FatKind, n: nat, b: seq<Byte>) {
    RequiredFatBytes(kind, n) <= |b|
  }

  lemma EntryInside(kind: FatKind, n: nat, b: seq<Byte>, c: nat)
    requires Holds(kind, n, b) && c < n
    ensures EntryPos(kind, c) + EntryBytes(kind) <= |b|
  {
    if kind == Fat12 {
      Inside12(n, c);
    }
  }

  lemma Inside12(n: nat, c: nat)
    requires c < n
    ensures c + c / 2 + 2 <= n * 3 / 2 + n % 2
  {
    var h, r := n / 2, n % 2;
    assert n == 2 * h + r && n * 3 / 2 == n + h;
    assert c / 2 <= (n - 1) / 2 == if r == 0 then h - 1 else h;
  }

  /** The word that holds an entry, from its first byte on. */
  function EntryWord(kind: FatKind, b: seq<Byte>, k: nat): nat
    requires k + EntryBytes(kind) <= |b|
  {
    if kind == Fat32 then Dword(b[k], b[k + 1], b[k + 2], b[k + 3]) else Word(b[k], b[k + 1])
  }

  /** The part of the word that is the entry. */
  function Decoded(kind: FatKind, odd: bool, w: nat): nat {
    match kind
    case Fat12 => if odd then w / 16 else w % 0x1000
    case Fat16 => w
    case Fat32 => w % 0x1000_0000
  }

  /** The value of entry `c` in the FAT bytes `b`. */
  function Entry(kind: FatKind, b: seq<Byte>, c: nat): (e: nat)
    requires EntryPos(kind, c) + EntryBytes(kind) <= |b|
    ensures e < EntryRange(kind)
  {
    Decoded(kind, c % 2 == 1, EntryWord(kind, b, EntryPos(kind, c)))
  }

  /** Where the bits of an entry are: two FAT12 entries share three bytes, a FAT16 entry takes two and a
      FAT32 entry the lower 28 bits of four, lowest byte first. */
  lemma EntryBits(kind: FatKind, b: seq<Byte>, c: nat)
    requires EntryPos(kind, c) + EntryBytes(kind) <= |b|
    ensures kind == Fat12 ==> c / 2 * 3 + c % 2 + 1 < |b|
    ensures kind == Fat12 && c % 2 == 0 ==> Entry(kind, b, c) == Number([b[c / 2 * 3], b[c / 2 * 3 + 1] % 16])
    ensures kind == Fat12 && c % 2 == 1 ==> Entry(kind, b, c) == Number(b[c / 2 * 3 + 1..c / 2 * 3 + 3]) / 16
    ensures kind == Fat16 ==> 2 * c + 1 < |b| && Entry(kind, b, c) == Number(b[2 * c..2 * c + 2])
    ensures kind == Fat32 ==> 4 * c + 3 < |b| && Entry(kind, b, c) == Number(b[4 * c..4 * c + 3] + [b[4 * c + 3] % 16])
  {
    match kind
    case Fat12 =>
      var k := c / 2 * 3;
      assert EntryPos(Fat12, c) == k + c % 2;
      if c % 2 == 0 {
        LowTwelve(b[k], b[k + 1]);
        Number2([b[k], b[k + 1] % 16]);
      } else {
        Number2(b[k + 1..k + 3]);
      }
    case Fat16 =>
      Number2(b[2 * c..2 * c + 2]);
    case Fat32 =>
      TopNibble(b[4 * c], b[4 * c + 1], b[4 * c + 2], b[4 * c + 3]);
      Number4(b[4 * c..4 * c + 3] + [b[4 * c + 3] % 16]);
  }

  lemma TopNibble(b0: Byte, b1: Byte, b2: Byte, b3: Byte)
    ensures Dword(b0, b1, b2, b3) % 0x1000_0000 == Dword(b0, b1, b2, b3 % 16)
  {
    assert Dword(b0, b1, b2, b3) == Dword(b0, b1, b2, b3 % 16) + b3 / 16 * 0x1000_0000;
  }

  /** A FAT is just large enough when its last byte is the last one of its last entry. */
  lemma LeastFat(kind: FatKind, n: nat)
    ensures RequiredFatBytes(kind, n + 1) == EntryPos(kind, n) + EntryBytes(kind)
  {
    if kind == Fat12 {
      Least12(n / 2, n % 2);
    }
  }

  lemma Least12(h: nat, r: nat)
    requires r < 2
    ensures (2 * h + r + 1) * 3 / 2 + (2 * h + r + 1) % 2 == (2 * h + r) + (2 * h + r) / 2 + 2
  {
    if r == 0 {
      assert (6 * h + 3) / 2 == 3 * h + 1;
    } else {
      assert (6 * h + 6) / 2 == 3 * h + 3;
    }
  }

  /** A FAT32 entry keeps its four reserved bits, whatever value of 28 bits is stored. */
  lemma ReservedKept(b: seq<Byte>, c: nat, val: nat)
    requires 4 * c + 4 <= |b| && val < 0x1000_0000
    ensures Packed(Fat32, b, c, val)[4 * c + 3] / 16 == b[4 * c + 3] / 16
  {
    assert OrNibble(0, b[4 * c + 3] / 16) == b[4 * c + 3] / 16;
  }

  /** The whole table of `n` entries. */
  function Table(kind: FatKind, n: nat, b: seq<Byte>): (t: seq<nat>)
    requires Holds(kind, n, b)
    ensures |t| == n
    ensures forall c :: 0 <= c < n ==> t[c] < EntryRange(kind)
  {
    seq(n, c requires 0 <= c < n => EntryInside(kind, n, b, c); Entry(kind, b, c))
  }

  /** The first or second byte put_fat stores for FAT12 entry `c`, given what it held. */
  function Byte12(c: nat, high: bool, before: Byte, val: nat): Byte {
    if !high then
      if c % 2 == 1 then before % 16 + (val % 16) * 16 else val % 0x100
    else
      if c % 2 == 1 then val / 16 % 0x100 else before / 16 * 16 + val / 0x100 % 16
  }

  /** The bitwise or of two nibbles. */
  function OrNibble(a: nat, b: nat): (r: nat)
    requires a < 16 && b < 16
    ensures r < 16
  {
    ((a as bv4) | (b as bv4)) as nat
  }

  /** The top byte of a FAT32 entry: its four reserved bits are or-ed with those of `val`. */
  function PackedTop(old3: Byte, val: nat): Byte {
    val / 0x100_0000 % 16 + OrNibble(val / 0x1000_0000 % 16, old3 / 16) * 16
  }

  /** The FAT bytes after put_fat stores `val` in entry `c`. */
  function Packed(kind: FatKind, b: seq<Byte>, c: nat, val: nat): (r: seq<Byte>)
    requires EntryPos(kind, c) + EntryBytes(kind) <= |b|
    ensures |r| == |b|
  {
    var k := EntryPos(kind, c);
    match kind
    case Fat12 => b[k := Byte12(c, false, b[k], val)][k + 1 := Byte12(c, true, b[k + 1], val)]
    case Fat16 => b[k := val % 0x100][k + 1 := val / 0x100 % 0x100]
    case Fat32 =>
      b[k := val % 0x100][k + 1 := val / 0x100 % 0x100][k + 2 := val / 0x1_0000 % 0x100]
       [k + 3 := PackedTop(b[k + 3], val)]
  }

  lemma Pack12(c: nat, a0: Byte, a1: Byte, val: nat)
    ensures var w := Word(Byte12(c, false, a0, val), Byte12(c, true, a1, val));
      (if c % 2 == 1 then w / 16 else w % 0x1000) == val % 0x1000
  {
    if c % 2 == 1 {
      Nibble(val % 16, a0 % 16, val / 16 % 0x100);
      ModNibble(val);
    } else {
      LowTwelve(val % 0x100, a1 / 16 * 16 + val / 0x100 % 16);
      LowNibble(a1, val / 0x100 % 16);
      ModByte(val);
      hide Word;
    }
  }

  lemma Nibble(low: nat, a: nat, high: nat)
    requires low < 16 && a < 16
    ensures (a + low * 16 + 0x100 * high) / 16 == low + 16 * high
  {
  }

  lemma LowNibble(a: Byte, low: nat)
    requires low < 16
    ensures (a / 16 * 16 + low) % 16 == low
  {
  }

  lemma ModNibble(val: nat)
    ensures val % 0x1000 == val % 16 + 16 * (val / 16 % 0x100)
  {
  }

  lemma ModByte(val: nat)
    ensures val % 0x1000 == val % 0x100 + 0x100 * (val / 0x100 % 16)
  {
  }

  lemma SplitBytes(m: nat)
    requires m < 0x1000_0000
    ensures m == m % 0x100 + 0x100 * (m / 0x100 % 0x100) + 0x1_0000 * (m / 0x1_0000 % 0x100)
      + 0x100_0000 * (m / 0x100_0000)
  {
    assert m / 0x100 / 0x100 == m / 0x1_0000;
    assert m / 0x1_0000 / 0x100 == m / 0x100_0000;
  }

  lemma LowBytes(val: nat)
    ensures val % 0x1000_0000 % 0x100 == val % 0x100
    ensures val % 0x1000_0000 / 0x100 % 0x100 == val / 0x100 % 0x100
    ensures val % 0x1000_0000 / 0x1_0000 % 0x100 == val / 0x1_0000 % 0x100
    ensures val % 0x1000_0000 / 0x100_0000 == val / 0x100_0000 % 16
  {
    var q, m := val / 0x1000_0000, val % 0x1000_0000;
    assert val % 0x100 == m % 0x100 by { ModPlus(0x10_0000 * q, m); }
    assert val / 0x100 == q * 0x10_0000 + m / 0x100;
    ModPlus(q * 0x1000, m / 0x100);
    assert val / 0x1_0000 == q * 0x1000 + m / 0x1_0000;
    ModPlus(q * 16, m / 0x1_0000);
    assert val / 0x100_0000 == q * 16 + m / 0x100_0000;
  }

  lemma ModPlus(t: nat, r: nat)
    ensures (t * 0x100 + r) % 0x100 == r % 0x100
  {
  }

  lemma Pack32(a3: Byte, val: nat)
    ensures Dword(val % 0x100, val / 0x100 % 0x100, val / 0x1_0000 % 0x100, PackedTop(a3, val)) % 0x1000_0000
      == val % 0x1000_0000
  {
    hide OrNibble;
    var m, top := val % 0x1000_0000, OrNibble(val / 0x1000_0000 % 16, a3 / 16);
    LowBytes(val);
    SplitBytes(m);
    TopBits(m, top);
    assert PackedTop(a3, val) == m / 0x100_0000 + top * 16;
  }

  lemma TopBits(m: nat, top: nat)
    requires m < 0x1000_0000
    ensures (m + 0x100_0000 * (top * 16)) % 0x1000_0000 == m
  {
  }

  /** A stored value is read back cut to the entry width. */
  lemma PackedSame(kind: FatKind, b: seq<Byte>, c: nat, val: nat)
    requires EntryPos(kind, c) + EntryBytes(kind) <= |b|
    ensures Entry(kind, Packed(kind, b, c, val), c) == Trunc(kind, val)
  {
    match kind
    case Fat12 =>
      Pack12(c, b[c + c / 2], b[c + c / 2 + 1], val);
      hide Word, Byte12;
    case Fat16 =>
      Pack16(val);
      hide Word;
    case Fat32 =>
      Pack32(b[c * 4 + 3], val);
      hide Dword, PackedTop;
  }

  lemma Pack16(val: nat)
    ensures Word(val % 0x100, val / 0x100 % 0x100) == val % 0x1_0000
  {
  }

  /** Every other FAT12 entry reads as before, also one that shares a byte with the stored one. */
  lemma PackedOther12(b: seq<Byte>, c: nat, val: nat, d: nat)
    requires c + c / 2 + 2 <= |b| && d + d / 2 + 2 <= |b| && d != c
    ensures Entry(Fat12, Packed(Fat12, b, c, val), d) == Entry(Fat12, b, d)
  {
    hide Word;
    var k := c + c / 2;
    if d == c - 1 && c % 2 == 1 {
      assert d + d / 2 == k - 1 && d % 2 == 0;
      NibbleAbove(b[k - 1], b[k], val);
    } else if d == c + 1 && c % 2 == 0 {
      assert d + d / 2 == k + 1 && d % 2 == 1;
      NibbleBelow(b[k + 1], b[k + 2], val);
    } else {
      assert d + d / 2 + 1 < k || k + 1 < d + d / 2;
    }
  }

  lemma PackedOther16(b: seq<Byte>, c: nat, val: nat, d: nat)
    requires c * 2 + 2 <= |b| && d * 2 + 2 <= |b| && d != c
    ensures Entry(Fat16, Packed(Fat16, b, c, val), d) == Entry(Fat16, b, d)
  {
  }

  lemma PackedOther32(b: seq<Byte>, c: nat, val: nat, d: nat)
    requires c * 4 + 4 <= |b| && d * 4 + 4 <= |b| && d != c
    ensures Entry(Fat32, Packed(Fat32, b, c, val), d) == Entry(Fat32, b, d)
  {
  }

  lemma LowTwelve(x: Byte, y: Byte)
    ensures Word(x, y) % 0x1000 == x + 0x100 * (y % 16)
  {
    assert x + 0x100 * y == x + 0x100 * (y % 16) + 0x1000 * (y / 16);
  }

  lemma SameNibble(before: Byte, val: nat)
    ensures (before % 16 + (val % 16) * 16) % 16 == before % 16
  {
  }

  /** The even entry below keeps its twelve bits when an odd one is stored. */
  lemma NibbleAbove(x: Byte, y: Byte, val: nat)
    ensures Word(x, y % 16 + (val % 16) * 16) % 0x1000 == Word(x, y) % 0x1000
  {
    SameNibble(y, val);
    LowTwelve(x, y);
    LowTwelve(x, y % 16 + (val % 16) * 16);
  }

  lemma HighTwelve(x: Byte, y: Byte)
    ensures Word(x, y) / 16 == x / 16 + 16 * y
  {
  }

  /** The odd entry above keeps its twelve bits when an even one is stored. */
  lemma NibbleBelow(x: Byte, y: Byte, val: nat)
    ensures Word(x / 16 * 16 + val / 0x100 % 16, y) / 16 == Word(x, y) / 16
  {
    HighTwelve(x, y);
    HighTwelve(x / 16 * 16 + val / 0x100 % 16, y);
  }

  lemma PackedTable(kind: FatKind, n: nat, b: seq<Byte>, c: nat, val: nat)
    requires Holds(kind, n, b) && c < n
    ensures EntryPos(kind, c) + EntryBytes(kind) <= |b|
    ensures Table(kind, n, Packed(kind, b, c, val)) == Table(kind, n, b)[c := Trunc(kind, val)]
  {
    EntryInside(kind, n, b, c);
    forall d: nat | d < n
      ensures Table(kind, n, Packed(kind, b, c, val))[d] == Table(kind, n, b)[c := Trunc(kind, val)][d]
    {
      EntryInside(kind, n, b, d);
      if d == c {
        PackedSame(kind, b, c, val);
      } else {
        match kind
        case Fat12 => PackedOther12(b, c, val, d);
        case Fat16 => PackedOther16(b, c, val, d);
        case Fat32 => PackedOther32(b, c, val, d);
      }
    }
  }
}
