/** Bytes, and the words made of them. */
module Bytes {

  type Byte = x: int | 0 <= x < 256

  // Little-endian words.

  function Word(b0: Byte, b1: Byte): (w: nat)
    ensures w < 0x1_0000
  {
    b0 + 0x100 * b1
  }

  function Dword(b0: Byte, b1: Byte, b2: Byte, b3: Byte): (w: nat)
    ensures w < 0x1_0000_0000
  {
    b0 + 0x100 * b1 + 0x1_0000 * b2 + 0x100_0000 * b3
  }

  /** The number in some bytes, lowest byte first. */
  function Number(b: seq<Byte>): nat {
    if b == [] then 0 else b[0] as nat + 0x100 * Number(b[1..])
  }

  lemma Number2(b: seq<Byte>)
    requires |b| == 2
    ensures Number(b) == Word(b[0], b[1])
  {
    assert b[1..] == [b[1]] && Number([b[1]]) == b[1] as nat + 0x100 * Number([b[1]][1..]);
  }

  lemma Number4(b: seq<Byte>)
    requires |b| == 4
    ensures Number(b) == Dword(b[0], b[1], b[2], b[3])
  {
    assert Number(b[1..]) == b[1] as nat + 0x100 * Number(b[1..][1..]);
    assert b[1..][1..] == b[2..];
    Number2(b[2..]);
  }

  /** Different bytes are different numbers. */
  lemma {:induction false} NumberUnique(a: seq<Byte>, b: seq<Byte>)
    requires |a| == |b| && Number(a) == Number(b)
    ensures a == b
  {
    if a != [] {
      assert a[0] as nat + 0x100 * Number(a[1..]) == b[0] as nat + 0x100 * Number(b[1..]);
      assert a[0] == b[0];
      NumberUnique(a[1..], b[1..]);
      assert a == [a[0]] + a[1..] && b == [b[0]] + b[1..];
    }
  }

  function Zeros(n: nat): (z: seq<Byte>)
    ensures |z| == n
    ensures forall i :: 0 <= i < n ==> z[i] == 0
  {
    seq(n, i => 0)
  }

  // ---- memory ---------------------------------------------------------------------------------

  function AlignUp(n: nat): (r: nat)
    ensures r % 4 == 0 && n <= r < n + 4
  {
    (n + 3) / 4 * 4
  }

  /** `s` with its `i`-th byte replaced. */
  function WithByte(s: seq<Byte>, i: nat, b: Byte): (r: seq<Byte>)
    requires i < |s|
    ensures |r| == |s|
  {
    s[i := b]
  }

  /** `m` with `x` put over it at `p`. */
  function Overlaid(m: seq<Byte>, p: nat, x: seq<Byte>): (r: seq<Byte>)
    requires p + |x| <= |m|
    ensures |r| == |m| && r[p..p + |x|] == x
    ensures forall b :: 0 <= b < |m| && !(p <= b < p + |x|) ==> r[b] == m[b]
  {
    m[..p] + x + m[p + |x|..]
  }

  lemma OverlaidMore(m: seq<Byte>, p: nat, q: nat, l: nat)
    requires p + l < |m| && q + l < |m| && (p + l < q || q + l < p)
    ensures Overlaid(m, p, m[q..q + l])[q + l] == m[q + l]
    ensures Overlaid(m, p, m[q..q + l])[p + l := m[q + l]] == Overlaid(m, p, m[q..q + l + 1])
  {
  }

  lemma OverlaidNone(m: seq<Byte>, p: nat, q: nat)
    requires p <= |m| && q <= |m|
    ensures Overlaid(m, p, m[q..q]) == m
  {
  }

  lemma OverlaidFront(m: seq<Byte>, k: nat, p: nat, q: nat, n: nat)
    requires k <= |m| && p + n <= k && q + n <= k
    ensures var r := Overlaid(m, p, m[q..q + n])[..k];
      && r[p..p + n] == m[..k][q..q + n]
      && forall b :: 0 <= b < k && !(p <= b < p + n) ==> r[b] == m[..k][b]
  {
    var x := m[q..q + n];
    assert Overlaid(m, p, x)[..k][p..p + n] == Overlaid(m, p, x)[p..p + |x|] == x;
  }

  lemma Front(m: seq<Byte>, lo: int, hi: int, n: nat)
    requires 0 <= lo && lo + n <= hi <= |m|
    ensures m[lo..hi][..n] == m[lo..lo + n]
  {
  }

  /** One of `a` and `b` is a prefix of the other. */
  ghost predicate SamePrefix(a: seq<Byte>, b: seq<Byte>) {
    a <= b || b <= a
  }

  lemma PrefixOf(m: seq<Byte>, lo: int, x: int, y: int)
    requires 0 <= lo <= x <= |m| && lo <= y <= |m|
    ensures SamePrefix(m[lo..x], m[lo..y])
  {
    if x <= y {
      assert m[lo..x] == m[lo..y][..x - lo];
    } else {
      assert m[lo..y] == m[lo..x][..y - lo];
    }
  }

  /** rt_memcpy between places that do not overlap. */
  method MemCopy(mem: array<Byte>, p: int, q: int, n: nat)
    requires 0 <= p && p + n <= mem.Length && 0 <= q && q + n <= mem.Length && (p + n <= q || q + n <= p)
    modifies mem
    ensures mem[..] == Overlaid(old(mem[..]), p, old(mem[..])[q..q + n])
  {
    hide Overlaid;
    ghost var m := mem[..];
    OverlaidNone(m, p, q);
    for l := 0 to n
      invariant mem[..] == Overlaid(m, p, m[q..q + l])
    {
      OverlaidMore(m, p, q, l);
      assert mem[q + l] == mem[..][q + l];
      mem[p + l] := mem[q + l];
    }
  }

  /** The same, seen in the first `k` bytes. */
  method MemCopyBelow(mem: array<Byte>, k: nat, p: int, q: int, n: nat)
    requires k <= mem.Length && 0 <= p && p + n <= k && 0 <= q && q + n <= k && (p + n <= q || q + n <= p)
    modifies mem
    ensures mem[..k][p..p + n] == old(mem[..k])[q..q + n]
    ensures forall b :: 0 <= b < k && !(p <= b < p + n) ==> mem[..k][b] == old(mem[..k])[b]
  {
    hide Overlaid;
    ghost var all := mem[..];
    MemCopy(mem, p, q, n);
    OverlaidFront(all, k, p, q, n);
    assert mem[..][..k] == mem[..k] && all[..k] == old(mem[..k]);
  }

  /** Unknown bytes are written over `n` bytes from `x` on. */
  method Clobber(mem: array<Byte>, x: int, n: nat)
    requires 0 <= x && x + n <= mem.Length
    modifies mem
    ensures forall p :: 0 <= p < mem.Length && !(x <= p < x + n) ==> mem[p] == old(mem[p])
  {
    for p := x to x + n
      invariant forall q :: 0 <= q < mem.Length && !(x <= q < x + n) ==> mem[q] == old(mem[q])
    {
      mem[p] := *;
    }
  }
}
