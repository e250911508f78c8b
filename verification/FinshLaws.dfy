/** What the operators of the shell compute on 32-bit words, and what assignments and increments leave in
    memory, in terms of numbers and bits. */
module FinshLaws {
  import opened Arithmetic
  import opened Bytes
  import opened FinshTree
  import opened FinshCode

  /** Bit `k` of a number. */
  predicate Bit(w: nat, k: nat) {
    if k == 0 then w % 2 == 1 else Bit(w / 2, k - 1)
  }

  // ---- sums, differences and products ---------------------------------------------------------------

  /** Addition, subtraction and multiplication are exact up to a multiple of 2^32. */
  lemma Modular(a: Word32, b: Word32) returns (q: int)
    ensures Apply(Add, a, b) == a + b || Apply(Add, a, b) == a + b - 0x1_0000_0000
    ensures Apply(Sub, a, b) == a - b || Apply(Sub, a, b) == a - b + 0x1_0000_0000
    ensures a * b == q * 0x1_0000_0000 + Apply(Mul, a, b)
  {
    q := a * b / 0x1_0000_0000;
  }

  /** The complement has the other value of every bit. */
  lemma Complements(a: Word32)
    ensures a + Complement(a) == 0xFFFF_FFFF
    ensures forall k :: 0 <= k < 32 ==> Bit(Complement(a), k) == !Bit(a, k)
  {
    Power32();
    forall k: nat | k < 32
      ensures Bit(Complement(a), k) == !Bit(a, k)
    {
      OtherBit(a, Complement(a), 32, k);
    }
  }

  lemma {:induction false} OtherBit(a: nat, c: nat, n: nat, k: nat)
    requires a + c == Power2(n) - 1 && k < n
    ensures Bit(c, k) == !Bit(a, k)
    decreases n
  {
    Halves(a, c, Power2(n - 1));
    if k > 0 {
      OtherBit(a / 2, c / 2, n - 1, k - 1);
    }
  }

  lemma Halves(a: nat, c: nat, p: nat)
    requires a + c == 2 * p - 1
    ensures a / 2 + c / 2 == p - 1 && (a % 2 == 1) != (c % 2 == 1)
  {
    assert a == 2 * (a / 2) + a % 2 && c == 2 * (c / 2) + c % 2;
  }

  // ---- quotients and remainders -----------------------------------------------------------------------

  /** Division and remainder belong together: the remainder is smaller than the divisor and has the
      sign of the dividend. The smallest number divided by -1 wraps to itself. */
  lemma Division(a: Word32, b: Word32)
    requires b != 0
    ensures var x, y, q, r := Signed(a), Signed(b), Signed(Apply(Div, a, b)), Signed(Apply(Mod, a, b));
      && x == (if x == -0x8000_0000 && y == -1 then q else q * y) + r
      && Abs(r) < Abs(y) && (r == 0 || (r > 0 <==> x > 0))
  {
    var x, y := Signed(a), Signed(b);
    var q := Abs(x) / Abs(y);
    DivModSplit(Abs(x), Abs(y));
    QuotientIs(x, y, q, Abs(x) % Abs(y));
    if Abs(y) > 1 { MulMono(2, Abs(y), q); }
    SignedWrap(Quotient(x, y));
    SignedWrap(x - Quotient(x, y) * y);
  }

  lemma QuotientIs(x: int, y: int, q: nat, r: nat)
    requires y != 0 && q == Abs(x) / Abs(y) && r == Abs(x) % Abs(y) && Abs(x) == q * Abs(y) + r && r < Abs(y)
    ensures q <= Abs(x)
    ensures (x >= 0) == (y > 0) ==> Quotient(x, y) == q
    ensures (x >= 0) != (y > 0) ==> Quotient(x, y) + q == 0
    ensures x >= 0 ==> x - Quotient(x, y) * y == r
    ensures x < 0 ==> x - Quotient(x, y) * y + r == 0
  {
    MulMono(1, Abs(y), q);
  }

  lemma SignedWrap(i: int)
    ensures -0x8000_0000 <= i < 0x8000_0000 ==> Signed(Wrap(i)) == i
    ensures i == 0x8000_0000 ==> Signed(Wrap(i)) == -i
  {
  }

  lemma NoDivision(a: Word32)
    ensures Apply(Div, a, 0) == 0 == Apply(Mod, a, 0)
  {
  }

  // ---- bits -----------------------------------------------------------------------------------------

  /** And, or and exclusive or, bit by bit. */
  lemma Bitwise(a: Word32, b: Word32, k: nat)
    requires k < 32
    ensures Bit(Apply(And, a, b), k) <==> Bit(a, k) && Bit(b, k)
    ensures Bit(Apply(Or, a, b), k) <==> Bit(a, k) || Bit(b, k)
    ensures Bit(Apply(Xor, a, b), k) <==> Bit(a, k) != Bit(b, k)
  {
    BitJoined((x, y) => x && y, a, b, 32, k);
    BitJoined((x, y) => x || y, a, b, 32, k);
    BitJoined((x, y) => x != y, a, b, 32, k);
  }

  lemma {:induction false} BitJoined(f: (bool, bool) -> bool, a: nat, b: nat, n: nat, k: nat)
    requires k < n
    ensures Bit(BitByBit(f, a, b, n), k) == f(Bit(a, k), Bit(b, k))
    decreases n
  {
    var low, high := if f(a % 2 == 1, b % 2 == 1) then 1 else 0, BitByBit(f, a / 2, b / 2, n - 1);
    assert BitByBit(f, a, b, n) == low + 2 * high;
    if k > 0 {
      BitJoined(f, a / 2, b / 2, n - 1, k - 1);
    }
  }

  /** Two numbers below 2^n with the same bits are the same. */
  lemma {:induction false} SameBits(a: nat, b: nat, n: nat)
    requires a < Power2(n) && b < Power2(n) && forall k :: 0 <= k < n ==> Bit(a, k) == Bit(b, k)
    ensures a == b
    decreases n
  {
    if n > 0 {
      assert Bit(a, 0) == Bit(b, 0);
      forall k: nat | k < n - 1
        ensures Bit(a / 2, k) == Bit(b / 2, k)
      {
        assert Bit(a, k + 1) == Bit(b, k + 1);
      }
      SameBits(a / 2, b / 2, n - 1);
    }
  }

  /** A shift to the left moves every bit up and fills with zeros. */
  lemma ShiftsLeft(a: Word32, b: Word32, k: nat)
    requires b < 32 && k < 32
    ensures Bit(Apply(Shl, a, b), k) <==> k >= b && Bit(a, k - b)
  {
    hide Apply, Bit, Power2;
    ShlIs(a, b);
    LowBits(a * Power2(b), 32, k);
    MovedUp(a, b, k);
  }

  lemma ShlIs(a: Word32, b: Word32)
    requires b < 32
    ensures Power2(32) > 0 && Apply(Shl, a, b) == a * Power2(b) % Power2(32)
  {
    Power32();
    hide Power2, BitByBit;
  }

  lemma {:induction false} LowBits(y: nat, n: nat, k: nat)
    requires k < n
    ensures Power2(n) > 0 && Bit(y % Power2(n), k) == Bit(y, k)
    decreases n
  {
    PowerPositive(n - 1);
    DivDiv(y, 2, Power2(n - 1));
    assert y % Power2(n) == y / 2 % Power2(n - 1) * 2 + y % 2;
    if k > 0 {
      LowBits(y / 2, n - 1, k - 1);
    }
  }

  lemma {:induction false} PowerPositive(n: nat)
    ensures Power2(n) > 0
  {
    if n > 0 { PowerPositive(n - 1); }
  }

  lemma {:induction false} MovedUp(a: nat, b: nat, k: nat)
    ensures Bit(a * Power2(b), k) <==> k >= b && Bit(a, k - b)
    decreases b
  {
    if b > 0 {
      MulAssoc(a, 2, Power2(b - 1));
      MulAssoc(2, a, Power2(b - 1));
      assert a * Power2(b) == 2 * (a * Power2(b - 1));
      if k > 0 {
        MovedUp(a, b - 1, k - 1);
      }
    } else {
      assert a * Power2(0) == a;
    }
  }

  /** A shift to the right divides by a power of two and rounds down, for negative numbers too. */
  lemma ShiftsRight(a: Word32, b: Word32)
    requires b < 32
    ensures var x, q, p := Signed(a), Signed(Apply(Shr, a, b)), Power2(b); q * p <= x < (q + 1) * p
  {
    PowerPositive(b);
    FloorIs(Signed(a), Power2(b));
    SignedWrap(FloorDiv(Signed(a), Power2(b)));
  }

  lemma FloorIs(x: int, p: nat)
    requires p > 0
    ensures var q := FloorDiv(x, p); q * p <= x < (q + 1) * p && Abs(q) <= Abs(x) && (x < 0 <==> q < 0)
  {
    if x >= 0 {
      DivModSplit(x, p);
      MulStep(x / p, p);
      MulMono(1, p, x / p);
    } else {
      FloorBelow(-x, p, (-x + p - 1) / p);
    }
  }

  lemma FloorBelow(y: nat, p: nat, n: nat)
    requires y > 0 && p > 0 && n == (y + p - 1) / p
    ensures (0 - n) * p <= 0 - y < (0 - n + 1) * p && 0 < n <= y
  {
    DivModSplit(y + p - 1, p);
    RoundsUp(y, p);
    MulSub(0, n, p);
    MulStep(0 - n, p);
  }

  lemma RoundsUp(x: nat, p: nat)
    requires x > 0 && p > 0
    ensures 0 < (x + p - 1) / p <= x
  {
    DivModSplit(x + p - 1, p);
    if (x + p - 1) / p > x { MulMono(x + 1, (x + p - 1) / p, p); MulStep(x, p); MulMono(1, p, x); }
  }

  /** What C leaves open. */
  lemma ShiftsTooFar(a: Word32, b: Word32)
    requires b >= 32
    ensures Apply(Shl, a, b) == 0 == Apply(Shr, a, b)
  {
  }

  // ---- memory ---------------------------------------------------------------------------------------

  /** A word lies in four bytes, lowest byte first; storing it changes no other byte. */
  lemma FourBytes(m: Mem, a: int, v: Word32)
    ensures var m' := Store(m, a, v);
      && Number([m'.at(a), m'.at(a + 1), m'.at(a + 2), m'.at(a + 3)]) == v == Load(m', a)
      && forall x :: x < a || a + 4 <= x ==> m'.at(x) == m.at(x)
  {
    var m' := Store(m, a, v);
    LoadStored(m, a, v);
    Number4([m'.at(a), m'.at(a + 1), m'.at(a + 2), m'.at(a + 3)]);
  }

  lemma LoadsNumber(m: Mem, a: int)
    ensures Load(m, a) == Number([m.at(a), m.at(a + 1), m.at(a + 2), m.at(a + 3)])
  {
    Number4([m.at(a), m.at(a + 1), m.at(a + 2), m.at(a + 3)]);
  }

  // ---- statements -----------------------------------------------------------------------------------

  /** The variable at address `at`. */
  function Var(at: Word32, sibling: Node): Node {
    Node(Id(IdKind.Var, Plain, at), false, Untyped, Nil, sibling)
  }

  function Unary(kind: Kind, child: Node): Node {
    Node(kind, false, Untyped, child, Nil)
  }

  /** What the evaluator makes of `x = e`: the variable has the value of `e` afterwards, and so has the
      whole expression. */
  lemma Assigned(at: Word32, e: Node, m: Mem, sys: Calls)
    ensures var (v, m') := Eval(Unary(Assign, Var(at, e)), m, sys);
      && v == Eval(e, m, sys).0 == Eval(Var(at, Nil), m', sys).0
      && forall x :: x < at || at + 4 <= x ==> m'.at(x) == Eval(e, m, sys).1.at(x)
  {
    var (v, m1) := Eval(e, m, sys);
    FourBytes(m1, at, v);
  }

  /** `++x` and `x++` both add 1 to the variable; the one is its new value, the other its old one. The
      same with `--` and subtraction. */
  lemma Incremented(at: Word32, m: Mem, sys: Calls, up: bool)
    ensures var (v, m1) := Eval(Unary(if up then PreInc else PreDec, Var(at, Nil)), m, sys);
      var (w, m2) := Eval(Unary(if up then Inc else Dec, Var(at, Nil)), m, sys);
      && m1 == m2 && w == Load(m, at) && v == Load(m1, at) == Apply(if up then Add else Sub, w, 1)
      && forall x :: x < at || at + 4 <= x ==> m1.at(x) == m.at(x)
  {
    var d := if up then 1 else -1;
    OneMore(Load(m, at), up);
    FourBytes(m, at, Wrap(Load(m, at) + d));
    hide Apply, Wrap, Load, Store;
  }

  lemma OneMore(w: Word32, up: bool)
    ensures Apply(if up then Add else Sub, w, 1) == Wrap(w + if up then 1 else -1)
  {
  }

  /** The address of a variable leads back to it. */
  lemma AddressOf(at: Word32, m: Mem, sys: Calls)
    ensures Eval(Unary(GetAddr, Var(at, Nil)), m, sys) == (at, m)
    ensures Eval(Unary(GetValue, Unary(GetAddr, Var(at, Nil))), m, sys) == Eval(Var(at, Nil), m, sys) == (Load(m, at), m)
  {
  }

  /** Operands and arguments are evaluated from left to right: in `(x = v) + x` and in `f(x = v, x)` the
      second one is `v` too. */
  lemma LeftToRight(at: Word32, v: Word32, f: Word32, m: Mem, sys: Calls)
    ensures var set_ := Node(Assign, false, Untyped, Var(at, Unary(Value(v), Nil)), Var(at, Nil));
      && Eval(Unary(Bin(Add), set_), m, sys) == (Apply(Add, v, v), Store(m, at, v))
      && Eval(Unary(Func, Node(Id(SysCall, Plain, f), false, Untyped, Nil, set_)), m, sys) == sys(f, [v, v], Store(m, at, v))
  {
    var set_ := Node(Assign, false, Untyped, Var(at, Unary(Value(v), Nil)), Var(at, Nil));
    LoadStored(m, at, v);
    var m1 := Store(m, at, v);
    assert Eval(set_, m, sys) == (v, m1) && Eval(set_.sibling, m1, sys) == (v, m1);
    assert EvalAll(Nil, m1, sys) == ([], m1);
    assert EvalAll(set_.sibling, m1, sys) == ([v] + [], m1);
    assert EvalAll(set_, m, sys) == ([v] + ([v] + []), m1);
    assert [v] + ([v] + []) == [v, v];
    assert EvalAll(Node(Id(SysCall, Plain, f), false, Untyped, Nil, set_), m, sys) == ([f] + [v, v], m1);
  }

  // ---- types and code -------------------------------------------------------------------------------

  /** The type of an expression is that of its leftmost leaf: a call has none, a number and a variable
      have one, whatever operators are around them. */
  lemma LeftmostLeaf(kind: Kind, n: Node, at: Word32, v: Word32, args: Node)
    requires n.Node?
    ensures TypeOf(Unary(kind, n)) == TypeOf(n)
    ensures TypeOf(Unary(Value(v), Nil)) == TypeOf(Var(at, args)) == DoubleWord
    ensures TypeOf(Unary(Func, Node(Id(SysCall, Plain, at), false, Untyped, Nil, args))) == Untyped
  {
  }

  /** Operands in the text segment have their lowest byte first. */
  lemma LittleEndian(v: Word32)
    ensures |Little(v)| == 4 && Number(Little(v)) == v
  {
    DwordBytes(v);
    Number4(Little(v));
  }
}
