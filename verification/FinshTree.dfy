/** The expression trees of the shell, the type check that annotates them, and a direct evaluator.
    A node points to its first child and to its next sibling. Values are 32-bit words. */
module FinshTree {
  import opened Bytes

  type Word32 = x: int | 0 <= x < 0x1_0000_0000

  datatype BinOp = Add | Sub | Mul | Div | Mod | And | Or | Xor | Shl | Shr

  /** What an identifier names: a variable, a system variable or a system call. */
  datatype IdKind = Var | SysVar | SysCall

  /** The types the type check maps to a double word. The compiler has no case for `void*`. */
  datatype VarType = Plain | VoidP

  /** The operation of a node. `at` is the address of the variable's value or of the function. */
  datatype Kind =
    | Id(id: IdKind, ty: VarType, at: Word32)
    | Value(value: Word32)
    | Bin(op: BinOp)
    | Bitwise
    | Func
    | Assign
    | PreInc
    | PreDec
    | Inc
    | Dec
    | GetValue
    | GetAddr

  datatype DataType = Untyped | DoubleWord

  /** A node or the null pointer, with the two attributes that the type check sets. */
  datatype Node = Nil | Node(kind: Kind, address: bool, dataType: DataType, child: Node, sibling: Node)

  // ---- the type check -------------------------------------------------------------------------

  /** Whether the children of a node are checked as addresses. */
  function ChildAddr(kind: Kind, isAddr: bool): bool {
    if kind.Assign? || kind.PreInc? || kind.PreDec? || kind.GetAddr? then true
    else if kind.GetValue? && isAddr then false
    else isAddr
  }

  /** finsh_type_check: a node takes its type from its first child. A system call's identifier gets
      no type and no address attribute. */
  function TypeCheck(n: Node, isAddr: bool): (t: Node)
    ensures t.Nil? <==> n.Nil?
    ensures t.Node? ==> t.kind == n.kind
  {
    match n
    case Nil => Nil
    case Node(kind, address, dataType, child, sibling) =>
      var child' := TypeCheck(child, ChildAddr(kind, isAddr));
      var call := kind.Id? && kind.id.SysCall?;
      var type' :=
        if child'.Node? then child'.dataType
        else if kind.Value? || (kind.Id? && !call) then DoubleWord
        else dataType;
      Node(kind, if call then address else address || isAddr, type', child', TypeCheck(sibling, false))
  }

  // ---- words ----------------------------------------------------------------------------------

  function Wrap(i: int): Word32 {
    i % 0x1_0000_0000
  }

  function Signed(w: Word32): int {
    if w < 0x8000_0000 then w else w - 0x1_0000_0000
  }

  /** Division that truncates toward zero. */
  function Quotient(a: int, b: int): int
    requires b != 0
  {
    if (a >= 0) == (b > 0) then Abs(a) / Abs(b) else -(Abs(a) / Abs(b))
  }

  function Abs(a: int): nat {
    if a < 0 then -a else a
  }

  function Power2(k: nat): nat {
    if k == 0 then 1 else 2 * Power2(k - 1)
  }

  /** The `n` lowest bits of two numbers, joined bit by bit. */
  function BitByBit(f: (bool, bool) -> bool, a: nat, b: nat, n: nat): (r: nat)
    ensures r < Power2(n)
    ensures n == 32 ==> r < 0x1_0000_0000
  {
    if n == 0 then 0
    else
      Power32();
      (if f(a % 2 == 1, b % 2 == 1) then 1 else 0) + 2 * BitByBit(f, a / 2, b / 2, n - 1)
  }

  lemma Power32()
    ensures Power2(8) == 0x100 && Power2(16) == 0x1_0000 && Power2(31) == 0x8000_0000 && Power2(32) == 0x1_0000_0000
  {
    assert Power2(8) == 0x100;
    assert Power2(12) == 0x1000;
    assert Power2(16) == 0x1_0000;
    assert Power2(20) == 0x10_0000;
    assert Power2(24) == 0x100_0000;
    assert Power2(28) == 0x1000_0000;
    assert Power2(31) == 0x8000_0000;
  }

  /** The binary operators on `long`. What the language leaves open (division by zero, shifts by 32
      or more) is taken to be 0. */
  function Apply(op: BinOp, a: Word32, b: Word32): Word32 {
    match op
    case Add => Wrap(a + b)
    case Sub => Wrap(a - b)
    case Mul => Wrap(a * b)
    case Div => if b == 0 then 0 else Wrap(Quotient(Signed(a), Signed(b)))
    case Mod => if b == 0 then 0 else Wrap(Signed(a) - Quotient(Signed(a), Signed(b)) * Signed(b))
    case And => BitByBit((x, y) => x && y, a, b, 32)
    case Or => BitByBit((x, y) => x || y, a, b, 32)
    case Xor => BitByBit((x, y) => x != y, a, b, 32)
    case Shl => if b < 32 then Wrap(a * Power2(b)) else 0
    case Shr => if b < 32 then Wrap(FloorDiv(Signed(a), Power2(b))) else 0
  }

  function FloorDiv(a: int, d: nat): int {
    if d == 0 then 0 else if a >= 0 then a / d else -((-a + d - 1) / d)
  }

  function Complement(a: Word32): Word32 {
    0xFFFF_FFFF - a
  }

  // ---- memory ---------------------------------------------------------------------------------

  /** Memory maps every address to a byte. */
  datatype Mem = Mem(at: int -> Byte)

  function ByteOf(v: Word32, k: int): Byte {
    if k == 0 then v % 0x100
    else if k == 1 then v / 0x100 % 0x100
    else if k == 2 then v / 0x1_0000 % 0x100
    else v / 0x100_0000 % 0x100
  }

  function Load(m: Mem, a: int): Word32 {
    Dword(m.at(a), m.at(a + 1), m.at(a + 2), m.at(a + 3))
  }

  function StoredByte(m: Mem, a: int, v: Word32, x: int): Byte {
    if a <= x < a + 4 then ByteOf(v, x - a) else m.at(x)
  }

  function Store(m: Mem, a: int, v: Word32): Mem {
    Mem((x: int) => StoredByte(m, a, v, x))
  }

  lemma DwordBytes(v: Word32)
    ensures Dword(ByteOf(v, 0), ByteOf(v, 1), ByteOf(v, 2), ByteOf(v, 3)) == v
  {
    var b0, b1, b2, b3 := v % 0x100, v / 0x100 % 0x100, v / 0x1_0000 % 0x100, v / 0x100_0000 % 0x100;
    assert v / 0x100 == v / 0x1_0000 * 0x100 + b1;
    assert v / 0x1_0000 == v / 0x100_0000 * 0x100 + b2;
    assert v / 0x100_0000 == b3;
  }

  /** What has been stored is loaded again. */
  lemma LoadStored(m: Mem, a: int, v: Word32)
    ensures Load(Store(m, a, v), a) == v
  {
    DwordBytes(v);
  }

  // ---- the direct evaluator ---------------------------------------------------------------------

  /** What a system call does: its result and the memory it leaves. */
  type Calls = (Word32, seq<Word32>, Mem) -> (Word32, Mem)

  /** The value of an expression, and the memory after its side effects, operands from left to
      right. Nodes without operands that need them have the value 0. */
  function Eval(n: Node, m: Mem, sys: Calls): (Word32, Mem)
    decreases n, 1
  {
    if n.Nil? then (0, m) else
    match n.kind
    case Id(id, _, at) => (if id.SysCall? then at else Load(m, at), m)
    case Value(v) => (v, m)
    case Bin(op) =>
      if n.child.Nil? then (0, m) else
      var (a, m1) := Eval(n.child, m, sys);
      var (b, m2) := Eval(n.child.sibling, m1, sys);
      (Apply(op, a, b), m2)
    case Bitwise =>
      var (a, m1) := Eval(n.child, m, sys);
      (Complement(a), m1)
    case Func =>
      var (vs, m1) := EvalAll(n.child, m, sys);
      if vs == [] then (0, m1) else sys(vs[0], vs[1..], m1)
    case Assign =>
      if n.child.Nil? then (0, m) else
      var (a, m1) := EvalAddress(n.child, m, sys);
      var (v, m2) := Eval(n.child.sibling, m1, sys);
      (v, Store(m2, a, v))
    case PreInc => Step(n.child, m, 1, true)
    case PreDec => Step(n.child, m, -1, true)
    case Inc => Step(n.child, m, 1, false)
    case Dec => Step(n.child, m, -1, false)
    case GetValue =>
      var (a, m1) := Eval(n.child, m, sys);
      (Load(m1, a), m1)
    case GetAddr => EvalAddress(n.child, m, sys)
  }

  /** The address of an l-value: a variable, or what a pointer points to. */
  function EvalAddress(n: Node, m: Mem, sys: Calls): (Word32, Mem)
    decreases n, 0
  {
    if n.Nil? then (0, m)
    else if n.kind.Id? then (n.kind.at, m)
    else if n.kind.GetValue? then Eval(n.child, m, sys)
    else (0, m)
  }

  /** Adds `d` to a variable; the result is its new or its old value. */
  function Step(n: Node, m: Mem, d: int, pre: bool): (Word32, Mem) {
    if n.Nil? || !n.kind.Id? then (0, m) else
    var before := Load(m, n.kind.at);
    var after := Wrap(before + d);
    (if pre then after else before, Store(m, n.kind.at, after))
  }

  /** The values of a node and its siblings, from left to right. */
  function EvalAll(n: Node, m: Mem, sys: Calls): (r: (seq<Word32>, Mem))
    decreases n, 2
  {
    if n.Nil? then ([], m) else
    var (v, m1) := Eval(n, m, sys);
    var (vs, m2) := EvalAll(n.sibling, m1, sys);
    ([v] + vs, m2)
  }

  // ---- well-formed trees ------------------------------------------------------------------------

  /** A tree as the parser builds it: its attributes are not set yet. */
  predicate Fresh(n: Node) {
    n.Nil? || (!n.address && n.dataType == Untyped && Fresh(n.child) && Fresh(n.sibling))
  }

  /** The type that the type check finds for a node: that of its leftmost leaf. */
  function TypeOf(n: Node): DataType {
    if n.Nil? then Untyped
    else if n.child.Node? then TypeOf(n.child)
    else if n.kind.Value? || (n.kind.Id? && !n.kind.id.SysCall?) then DoubleWord
    else Untyped
  }

  lemma TypeChecked(n: Node, isAddr: bool)
    requires Fresh(n) && n.Node?
    ensures TypeCheck(n, isAddr).dataType == TypeOf(n)
  {
  }

  predicate Variable(n: Node) {
    n.Node? && n.kind.Id? && n.kind.id.Var? && n.kind.ty.Plain? && n.child.Nil?
  }

  /** An l-value: a variable of either kind, or a dereferenced pointer. */
  predicate Place(n: Node)
    decreases n, 0
  {
    && n.Node?
    && match n.kind
       case Id(id, ty, _) => !id.SysCall? && ty.Plain? && n.child.Nil?
       case GetValue => Expr(n.child) && n.child.sibling.Nil?
       case _ => false
  }

  /** An expression in which every operator that needs a type gets the type double word, which rules
      out a system call as its first operand, and that has no `void*` variable and no call with more
      than 16 arguments. */
  predicate Expr(n: Node)
    decreases n, 1
  {
    && n.Node?
    && match n.kind
       case Id(id, ty, _) => !id.SysCall? && ty.Plain? && n.child.Nil?
       case Value(_) => n.child.Nil?
       case Bin(_) =>
         Expr(n.child) && TypeOf(n.child) == DoubleWord && Expr(n.child.sibling) && n.child.sibling.sibling.Nil?
       case Bitwise => Expr(n.child) && TypeOf(n.child) == DoubleWord && n.child.sibling.Nil?
       case Func =>
         && n.child.Node? && n.child.kind.Id? && n.child.kind.id.SysCall? && n.child.child.Nil?
         && Exprs(n.child.sibling) && Length(n.child.sibling) <= 16
       case Assign =>
         Place(n.child) && TypeOf(n.child) == DoubleWord && Expr(n.child.sibling) && n.child.sibling.sibling.Nil?
       case PreInc => Variable(n.child) && n.child.sibling.Nil?
       case PreDec => Variable(n.child) && n.child.sibling.Nil?
       case Inc => Variable(n.child) && n.child.sibling.Nil?
       case Dec => Variable(n.child) && n.child.sibling.Nil?
       case GetValue => Expr(n.child) && n.child.sibling.Nil? && TypeOf(n.child) == DoubleWord
       case GetAddr => Place(n.child) && n.child.sibling.Nil?
  }

  predicate Exprs(n: Node)
    decreases n, 2
  {
    n.Nil? || (Expr(n) && Exprs(n.sibling))
  }

  /** The number of siblings from a node on. */
  function Length(n: Node): nat {
    if n.Nil? then 0 else 1 + Length(n.sibling)
  }
}
