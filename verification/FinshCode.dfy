/** The byte code of the shell: what the compiler emits for a tree, and what running it does to the
    stack and the memory. The code has no jumps, so what is left to run is a suffix of it. */
module FinshCode {
  import opened Arithmetic
  import opened Wrappers
  import opened Bytes
  import opened FinshTree

  const OP_ADD: Byte := 0x03
  const OP_SUB: Byte := 0x06
  const OP_DIV: Byte := 0x09
  const OP_MOD: Byte := 0x0C
  const OP_MUL: Byte := 0x0F
  const OP_AND: Byte := 0x12
  const OP_OR: Byte := 0x15
  const OP_XOR: Byte := 0x18
  const OP_BITWISE: Byte := 0x1B
  const OP_SHL: Byte := 0x1E
  const OP_SHR: Byte := 0x21
  const OP_LD: Byte := 0x24
  const OP_LD_VALUE: Byte := 0x27
  const OP_ST: Byte := 0x2A
  const OP_POP: Byte := 0x2B
  const OP_SYSCALL: Byte := 0x2C
  const OP_LD_STACK: Byte := 0x2F

  const STACK_MAX: nat := 64
  const TEXT_MAX: nat := 128

  function OpCode(op: BinOp): Byte {
    match op
    case Add => OP_ADD case Sub => OP_SUB case Mul => OP_MUL case Div => OP_DIV case Mod => OP_MOD
    case And => OP_AND case Or => OP_OR case Xor => OP_XOR case Shl => OP_SHL case Shr => OP_SHR
  }

  // ---- emitting -------------------------------------------------------------------------------

  /** A double word, low byte first. */
  function Little(v: Word32): (c: seq<Byte>)
    ensures |c| == 4
  {
    [ByteOf(v, 0), ByteOf(v, 1), ByteOf(v, 2), ByteOf(v, 3)]
  }

  /** Steps a variable by one, its address being on the stack. */
  function StepCode(at: Word32, op: Byte): seq<Byte> {
    [OP_LD_VALUE] + Little(at) + [OP_LD] + Little(1) + [op, OP_ST]
  }

  /** What finsh_compile emits for a node after the code of its children. */
  function Own(n: Node): seq<Byte>
    requires n.Node?
  {
    match n.kind
    case Id(id, ty, at) =>
      if id.SysCall? then [OP_LD] + Little(at)
      else if ty.VoidP? then []
      else if n.address then [OP_LD] + Little(at)
      else [OP_LD_VALUE] + Little(at)
    case Value(v) => [OP_LD] + Little(v)
    case Bin(op) => if n.dataType == DoubleWord then [OpCode(op)] else []
    case Bitwise => if n.dataType == DoubleWord then [OP_BITWISE] else []
    case Func => if n.child.Nil? then [] else [OP_SYSCALL, Length(n.child.sibling) % 0x100]
    case Assign =>
      if n.child.Node? && (n.child.kind.Id? || n.child.kind.GetValue?) && n.child.dataType == DoubleWord then
        [OP_ST, OP_LD_STACK]
      else []
    case PreInc => if StepsId(n) then StepCode(n.child.kind.at, OP_ADD) + [OP_LD_STACK] else []
    case PreDec => if StepsId(n) then StepCode(n.child.kind.at, OP_SUB) + [OP_LD_STACK] else []
    case Inc => if StepsId(n) then [OP_LD] + Little(n.child.kind.at) + StepCode(n.child.kind.at, OP_ADD) + [OP_POP] else []
    case Dec => if StepsId(n) then [OP_LD] + Little(n.child.kind.at) + StepCode(n.child.kind.at, OP_SUB) + [OP_POP] else []
    case GetValue => if !n.address && n.dataType == DoubleWord then [OP_LD_STACK] else []
    case GetAddr => []
  }

  predicate StepsId(n: Node)
    requires n.Node?
  {
    n.child.Node? && n.child.kind.Id? && n.dataType == DoubleWord
  }

  /** The code of a node without its siblings. */
  function Body(n: Node): seq<Byte>
    requires n.Node?
    decreases n, 0
  {
    Code(n.child) + Own(n)
  }

  /** finsh_compile: the children, the node itself, the siblings. */
  function Code(n: Node): seq<Byte>
    decreases n, 1
  {
    if n.Nil? then [] else Body(n) + Code(n.sibling)
  }

  /** finsh_compiler_run, for a list of statements that has been type checked: every value but the
      last one is popped. */
  function Program(n: Node): seq<Byte> {
    if n.Nil? then []
    else Body(n) + if n.sibling.Nil? then [] else [OP_POP] + Program(n.sibling)
  }

  // ---- running --------------------------------------------------------------------------------

  /** The stack and the memory; or the machine has left its stack or its text. */
  datatype Outcome = Stuck | Done(stack: seq<Word32>, mem: Mem)

  /** How many bytes an instruction takes. */
  function Size(op: Byte): nat {
    if op == OP_LD || op == OP_LD_VALUE then 5 else if op == OP_SYSCALL then 2 else 1
  }

  /** The double word that follows the opcode. */
  function Operand(code: seq<Byte>): Word32
    requires |code| >= 5
  {
    Dword(code[1], code[2], code[3], code[4])
  }

  function Top(s: seq<Word32>): Word32
    requires s != []
  {
    s[|s| - 1]
  }

  /** One instruction, the first of `code`. Opcode 0 does nothing. */
  function Instruction(code: seq<Byte>, s: seq<Word32>, m: Mem, sys: Calls): Outcome
    requires code != [] && Size(code[0]) <= |code|
  {
    var op := code[0];
    if op == 0 then Done(s, m)
    else if op == OP_LD then Push(s, Operand(code), m)
    else if op == OP_LD_VALUE then Push(s, Load(m, Operand(code)), m)
    else if op == OP_LD_STACK then
      if |s| < 1 then Stuck else Done(s[..|s| - 1] + [Load(m, Top(s))], m)
    else if op == OP_BITWISE then
      if |s| < 1 then Stuck else Done(s[..|s| - 1] + [Complement(Top(s))], m)
    else if op == OP_POP then
      if |s| < 1 then Stuck else Done(s[..|s| - 1], m)
    else if op == OP_ST then
      if |s| < 2 then Stuck else Done(s[..|s| - 1], Store(m, s[|s| - 2], Top(s)))
    else if op == OP_SYSCALL then Call(code[1], s, m, sys)
    else match Operator(op)
      case None => Stuck
      case Some(b) =>
        if |s| < 2 then Stuck else Done(s[..|s| - 2] + [Apply(b, s[|s| - 2], Top(s))], m)
  }

  function Operator(op: Byte): Option<BinOp> {
    if op == OP_ADD then Some(Add) else if op == OP_SUB then Some(Sub) else if op == OP_MUL then Some(Mul)
    else if op == OP_DIV then Some(Div) else if op == OP_MOD then Some(Mod) else if op == OP_AND then Some(And)
    else if op == OP_OR then Some(Or) else if op == OP_XOR then Some(Xor) else if op == OP_SHL then Some(Shl)
    else if op == OP_SHR then Some(Shr) else None
  }

  function Push(s: seq<Word32>, v: Word32, m: Mem): Outcome {
    if |s| < STACK_MAX then Done(s + [v], m) else Stuck
  }

  /** OP_call: the function below its arguments on the stack, first argument lowest. With more than
      16 arguments the machine overruns its argument array. */
  function Call(count: nat, s: seq<Word32>, m: Mem, sys: Calls): Outcome {
    if count > 16 || |s| < count + 1 then Stuck
    else
      var base := |s| - count - 1;
      var (r, m') := sys(s[base], s[base + 1..], m);
      Done(s[..base] + [r], m')
  }

  /** Runs the code to its end. */
  function Exec(code: seq<Byte>, s: seq<Word32>, m: Mem, sys: Calls): Outcome
    decreases |code|
  {
    if code == [] then Done(s, m)
    else if Size(code[0]) > |code| then Stuck
    else match Instruction(code, s, m, sys)
      case Stuck => Stuck
      case Done(s', m') => Exec(code[Size(code[0])..], s', m', sys)
  }

  // ---- stack room -------------------------------------------------------------------------------

  /** The number of stack cells that the code of a node needs. */
  function Need(n: Node): nat
    decreases n, 0
  {
    if n.Nil? then 0 else
    match n.kind
    case Inc => 4
    case Dec => 4
    case PreInc => 3
    case PreDec => 3
    case _ => Max(1, NeedAll(n.child))
  }

  /** The number of cells that a node and its siblings need, each leaving one value. */
  function NeedAll(n: Node): nat
    decreases n, 1
  {
    if n.Nil? then 0 else Max(Need(n), 1 + NeedAll(n.sibling))
  }
}
