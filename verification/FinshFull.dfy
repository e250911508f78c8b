/** The complete code of a tree, with the opcodes of every node: it always computes what the direct
    evaluator does. The compiler leaves opcodes out where the type check finds no double word, and at
    `void*` variables; so what it emits is complete exactly for the trees without such places. */
module FinshFull {
  import opened Arithmetic
  import opened Wrappers
  import opened Bytes
  import opened FinshTree
  import opened FinshCode
  import opened FinshRun

  // ---- the shape of trees -----------------------------------------------------------------------

  /** The place of an l-value, a variable of any type or a dereferenced pointer. */
  predicate ShapedPlace(n: Node)
    decreases n, 0
  {
    && n.Node?
    && match n.kind
       case Id(id, _, _) => !id.SysCall? && n.child.Nil?
       case GetValue => Shaped(n.child) && n.child.sibling.Nil?
       case _ => false
  }

  predicate ShapedVariable(n: Node) {
    n.Node? && n.kind.Id? && n.kind.id.Var? && n.child.Nil?
  }

  /** Every operator has its operands, and no call more than 16 arguments. What the operands and
      variables are does not matter. */
  predicate Shaped(n: Node)
    decreases n, 1
  {
    && n.Node?
    && match n.kind
       case Id(id, _, _) => !id.SysCall? && n.child.Nil?
       case Value(_) => n.child.Nil?
       case Bin(_) => Shaped(n.child) && Shaped(n.child.sibling) && n.child.sibling.sibling.Nil?
       case Bitwise => Shaped(n.child) && n.child.sibling.Nil?
       case Func =>
         && n.child.Node? && n.child.kind.Id? && n.child.kind.id.SysCall? && n.child.child.Nil?
         && ShapedList(n.child.sibling) && Length(n.child.sibling) <= 16
       case Assign => ShapedPlace(n.child) && Shaped(n.child.sibling) && n.child.sibling.sibling.Nil?
       case PreInc => ShapedVariable(n.child) && n.child.sibling.Nil?
       case PreDec => ShapedVariable(n.child) && n.child.sibling.Nil?
       case Inc => ShapedVariable(n.child) && n.child.sibling.Nil?
       case Dec => ShapedVariable(n.child) && n.child.sibling.Nil?
       case GetValue => Shaped(n.child) && n.child.sibling.Nil?
       case GetAddr => ShapedPlace(n.child) && n.child.sibling.Nil?
  }

  predicate ShapedList(n: Node)
    decreases n, 2
  {
    n.Nil? || (Shaped(n) && ShapedList(n.sibling))
  }

  predicate ShapedAs(n: Node, isAddr: bool) {
    if isAddr then ShapedPlace(n) else Shaped(n)
  }

  /** The trees without untyped operators and `void*` variables, as values and as addresses. */
  predicate TypedAs(n: Node, isAddr: bool) {
    if isAddr then Place(n) else Expr(n)
  }

  // ---- the complete code ------------------------------------------------------------------------

  function StepAt(n: Node): Word32
    requires n.Node?
  {
    if n.child.Node? && n.child.kind.Id? then n.child.kind.at else 0
  }

  function FullOwn(n: Node, isAddr: bool): seq<Byte>
    requires n.Node?
  {
    match n.kind
    case Id(id, _, at) => if id.SysCall? || isAddr then [OP_LD] + Little(at) else [OP_LD_VALUE] + Little(at)
    case Value(v) => [OP_LD] + Little(v)
    case Bin(op) => [OpCode(op)]
    case Bitwise => [OP_BITWISE]
    case Func => if n.child.Nil? then [] else [OP_SYSCALL, Length(n.child.sibling) % 0x100]
    case Assign => [OP_ST, OP_LD_STACK]
    case PreInc => StepCode(StepAt(n), OP_ADD) + [OP_LD_STACK]
    case PreDec => StepCode(StepAt(n), OP_SUB) + [OP_LD_STACK]
    case Inc => [OP_LD] + Little(StepAt(n)) + StepCode(StepAt(n), OP_ADD) + [OP_POP]
    case Dec => [OP_LD] + Little(StepAt(n)) + StepCode(StepAt(n), OP_SUB) + [OP_POP]
    case GetValue => if isAddr then [] else [OP_LD_STACK]
    case GetAddr => []
  }

  /** The code of a node as a value or as an address, without its siblings. */
  function Full(n: Node, isAddr: bool): seq<Byte>
    requires n.Node?
    decreases n, 0
  {
    FullList(n.child, ChildAddr(n.kind, isAddr)) + FullOwn(n, isAddr)
  }

  function FullList(n: Node, isAddr: bool): seq<Byte>
    decreases n, 1
  {
    if n.Nil? then [] else Full(n, isAddr) + FullList(n.sibling, false)
  }

  /** The complete code of a list of statements. */
  function FullProgram(n: Node): seq<Byte> {
    if n.Nil? then []
    else Full(n, false) + if n.sibling.Nil? then [] else [OP_POP] + FullProgram(n.sibling)
  }

  // ---- lists of expressions -----------------------------------------------------------------------

  /** A list of one expression. */
  lemma Single(n: Node, m: Mem, sys: Calls)
    requires n.Node? && n.sibling.Nil?
    ensures Shaped(n) ==> ShapedList(n)
    ensures NeedAll(n) == Max(Need(n), 1)
    ensures var (v, m1) := Eval(n, m, sys); EvalAll(n, m, sys) == ([v], m1)
  {
    var (v, m1) := Eval(n, m, sys);
    assert EvalAll(Nil, m1, sys) == ([], m1);
    assert [v] + [] == [v];
  }

  lemma NeedFirst(n: Node)
    requires n.Node?
    ensures NeedAll(n) == Max(Need(n), 1 + NeedAll(n.sibling))
  {
  }

  /** A call's identifier and arguments. */
  lemma CallList(n: Node, m: Mem, sys: Calls)
    requires n.Node? && n.kind.Id? && n.kind.id.SysCall?
    ensures var (vs, m1) := EvalAll(n.sibling, m, sys); EvalAll(n, m, sys) == ([n.kind.at] + vs, m1)
  {
  }

  /** A list of two expressions. */
  lemma Pair(n: Node, m: Mem, sys: Calls)
    requires n.Node? && n.sibling.Node? && n.sibling.sibling.Nil?
    ensures Shaped(n) && Shaped(n.sibling) ==> ShapedList(n)
    ensures NeedAll(n) == Max(Need(n), 1 + NeedAll(n.sibling))
    ensures var (a, m1) := Eval(n, m, sys); var (b, m2) := Eval(n.sibling, m1, sys); EvalAll(n, m, sys) == ([a, b], m2)
  {
    var (a, m1) := Eval(n, m, sys);
    var (b, m2) := Eval(n.sibling, m1, sys);
    Single(n.sibling, m1, sys);
    assert [a] + [b] == [a, b];
  }

  // ---- running the complete code ------------------------------------------------------------------

  /** What running the code of `n`, as a value or as an address, should leave. */
  function Meaning(n: Node, isAddr: bool, m: Mem, sys: Calls): (Word32, Mem) {
    if isAddr then EvalAddress(n, m, sys) else Eval(n, m, sys)
  }

  lemma FullAlone(n: Node, isAddr: bool)
    requires n.Node? && n.sibling.Nil?
    ensures FullList(n, isAddr) == Full(n, isAddr)
  {
    assert FullList(Nil, false) == [];
  }

  lemma FullLeaf(n: Node, isAddr: bool)
    requires n.Node? && n.child.Nil?
    ensures Full(n, isAddr) == FullOwn(n, isAddr)
  {
    assert FullList(Nil, ChildAddr(n.kind, isAddr)) == [];
  }

  /** The complete code of an expression raises the stack by exactly its value, that of an l-value by
      its address; lower cells stay, and the memory is that of the direct evaluator. */
  lemma {:induction false} FullRuns(n: Node, isAddr: bool, rest: seq<Byte>, s: seq<Word32>, m: Mem, sys: Calls)
    requires ShapedAs(n, isAddr) && |s| + Need(n) <= STACK_MAX
    ensures Exec(Full(n, isAddr) + rest, s, m, sys) ==
      var (v, m') := Meaning(n, isAddr, m, sys); Exec(rest, s + [v], m', sys)
    decreases n, 1
  {
    hide Exec, Load, Store, Little, StepCode, Apply, NeedAll, Full, FullList;
    match n.kind {
      case Id(_, _, at) =>
        FullLeaf(n, isAddr);
        if isAddr { RunLoad(at, rest, s, m, sys); } else { RunLoadValue(at, rest, s, m, sys); }
      case Value(v) =>
        FullLeaf(n, isAddr);
        RunLoad(v, rest, s, m, sys);
      case Bin(op) => BinRuns(n, rest, s, m, sys);
      case Bitwise => BitwiseRuns(n, rest, s, m, sys);
      case Func => FuncRuns(n, rest, s, m, sys);
      case Assign => AssignRuns(n, rest, s, m, sys);
      case GetValue => GetValueRuns(n, isAddr, rest, s, m, sys);
      case GetAddr => GetAddrRuns(n, rest, s, m, sys);
      case PreInc => RunPreNode(n, rest, s, m, sys);
      case PreDec => RunPreNode(n, rest, s, m, sys);
      case _ => RunPostNode(n, rest, s, m, sys);
    }
  }

  lemma RunPreNode(n: Node, rest: seq<Byte>, s: seq<Word32>, m: Mem, sys: Calls)
    requires Shaped(n) && |s| + Need(n) <= STACK_MAX && (n.kind.PreInc? || n.kind.PreDec?)
    ensures Exec(Full(n, false) + rest, s, m, sys) == var (v, m') := Eval(n, m, sys); Exec(rest, s + [v], m', sys)
  {
    hide Exec, Load, Store, Little, StepCode, Wrap, FullList;
    var at, up := n.child.kind.at, n.kind.PreInc?;
    FullAlone(n.child, true);
    FullLeaf(n.child, true);
    var step, l := StepCode(at, if up then OP_ADD else OP_SUB), [OP_LD] + Little(at);
    assert Full(n, false) == l + (step + [OP_LD_STACK]);
    Join(l, step + [OP_LD_STACK], rest);
    Join(step, [OP_LD_STACK], rest);
    RunPre(at, up, rest, s, m, sys);
  }

  lemma RunPostNode(n: Node, rest: seq<Byte>, s: seq<Word32>, m: Mem, sys: Calls)
    requires Shaped(n) && |s| + Need(n) <= STACK_MAX && (n.kind.Inc? || n.kind.Dec?)
    ensures Exec(Full(n, false) + rest, s, m, sys) == var (v, m') := Eval(n, m, sys); Exec(rest, s + [v], m', sys)
  {
    hide Exec, Load, Store, Little, StepCode, Wrap, FullList;
    var at, up := n.child.kind.at, n.kind.Inc?;
    FullAlone(n.child, false);
    FullLeaf(n.child, false);
    var step, l, lv := StepCode(at, if up then OP_ADD else OP_SUB), [OP_LD] + Little(at), [OP_LD_VALUE] + Little(at);
    assert Full(n, false) == lv + (l + step + [OP_POP]);
    Join(lv, l + step + [OP_POP], rest);
    Join(l + step, [OP_POP], rest);
    Join(l, step, [OP_POP] + rest);
    RunPost(at, up, rest, s, m, sys);
  }

  /** The complete code of a list of expressions pushes their values in order. */
  lemma {:induction false} FullListRuns(n: Node, rest: seq<Byte>, s: seq<Word32>, m: Mem, sys: Calls)
    requires ShapedList(n) && |s| + NeedAll(n) <= STACK_MAX
    ensures Exec(FullList(n, false) + rest, s, m, sys) ==
      var (vs, m') := EvalAll(n, m, sys); Exec(rest, s + vs, m', sys)
    decreases n, 2
  {
    hide Exec, Load, Store, Little, StepCode, Apply, Need, FullOwn, Full;
    if n.Nil? {
      assert [] + rest == rest && s + [] == s;
    } else {
      var more := FullList(n.sibling, false) + rest;
      Join(Full(n, false), FullList(n.sibling, false), rest);
      FullRuns(n, false, more, s, m, sys);
      var (v, m1) := Eval(n, m, sys);
      FullListRuns(n.sibling, rest, s + [v], m1, sys);
      var (vs, m2) := EvalAll(n.sibling, m1, sys);
      assert s + [v] + vs == s + ([v] + vs);
    }
  }

  lemma {:induction false} BinRuns(n: Node, rest: seq<Byte>, s: seq<Word32>, m: Mem, sys: Calls)
    requires Shaped(n) && n.kind.Bin? && |s| + Need(n) <= STACK_MAX
    ensures Exec(Full(n, false) + rest, s, m, sys) == var (v, m') := Eval(n, m, sys); Exec(rest, s + [v], m', sys)
    decreases n, 0
  {
    hide Exec, Load, Store, Little, StepCode, Apply, FullList, EvalAll, NeedAll;
    var l, r, op := n.child, n.child.sibling, n.kind.op;
    Join(FullList(l, false), [OpCode(op)], rest);
    Pair(l, m, sys);
    FullListRuns(l, [OpCode(op)] + rest, s, m, sys);
    var (a, m1) := Eval(l, m, sys);
    var (b, m2) := Eval(r, m1, sys);
    RunBinary(op, a, b, rest, s, m2, sys);
  }

  lemma {:induction false} BitwiseRuns(n: Node, rest: seq<Byte>, s: seq<Word32>, m: Mem, sys: Calls)
    requires Shaped(n) && n.kind.Bitwise? && |s| + Need(n) <= STACK_MAX
    ensures Exec(Full(n, false) + rest, s, m, sys) == var (v, m') := Eval(n, m, sys); Exec(rest, s + [v], m', sys)
    decreases n, 0
  {
    hide Exec, Load, Store, Little, StepCode, Apply, FullList, EvalAll, NeedAll;
    Join(FullList(n.child, false), [OP_BITWISE], rest);
    Single(n.child, m, sys);
    FullListRuns(n.child, [OP_BITWISE] + rest, s, m, sys);
    var (a, m1) := Eval(n.child, m, sys);
    RunComplement(a, rest, s, m1, sys);
  }

  lemma {:induction false} GetValueRuns(n: Node, isAddr: bool, rest: seq<Byte>, s: seq<Word32>, m: Mem, sys: Calls)
    requires ShapedAs(n, isAddr) && n.kind.GetValue? && |s| + Need(n) <= STACK_MAX
    ensures Exec(Full(n, isAddr) + rest, s, m, sys) ==
      var (v, m') := Meaning(n, isAddr, m, sys); Exec(rest, s + [v], m', sys)
    decreases n, 0
  {
    hide Exec, Load, Store, Little, StepCode, Apply, FullList, EvalAll, NeedAll;
    assert Shaped(n.child);
    var more := FullOwn(n, isAddr) + rest;
    Join(FullList(n.child, false), FullOwn(n, isAddr), rest);
    Single(n.child, m, sys);
    FullListRuns(n.child, more, s, m, sys);
    var (a, m1) := Eval(n.child, m, sys);
    if isAddr {
      assert more == rest;
    } else {
      RunLoadStack(a, rest, s, m1, sys);
    }
  }

  lemma {:induction false} GetAddrRuns(n: Node, rest: seq<Byte>, s: seq<Word32>, m: Mem, sys: Calls)
    requires Shaped(n) && n.kind.GetAddr? && |s| + Need(n) <= STACK_MAX
    ensures Exec(Full(n, false) + rest, s, m, sys) == var (v, m') := Eval(n, m, sys); Exec(rest, s + [v], m', sys)
    decreases n, 0
  {
    hide Exec, Load, Store, Little, StepCode, Apply, FullList, EvalAll, NeedAll;
    NeedFirst(n.child);
    FullAlone(n.child, true);
    assert Full(n, false) == Full(n.child, true);
    FullRuns(n.child, true, rest, s, m, sys);
  }

  lemma {:induction false} AssignRuns(n: Node, rest: seq<Byte>, s: seq<Word32>, m: Mem, sys: Calls)
    requires Shaped(n) && n.kind.Assign? && |s| + Need(n) <= STACK_MAX
    ensures Exec(Full(n, false) + rest, s, m, sys) == var (v, m') := Eval(n, m, sys); Exec(rest, s + [v], m', sys)
    decreases n, 0
  {
    hide Exec, Load, Store, Little, StepCode, Apply, EvalAll, NeedAll;
    var l, r := n.child, n.child.sibling;
    var more := [OP_ST] + ([OP_LD_STACK] + rest);
    AssignCode(n, rest);
    hide Full, FullList;
    NeedFirst(l);
    NeedFirst(r);
    FullRuns(l, true, FullList(r, false) + more, s, m, sys);
    var (a, m1) := EvalAddress(l, m, sys);
    Single(r, m1, sys);
    FullListRuns(r, more, s + [a], m1, sys);
    var (v, m2) := Eval(r, m1, sys);
    assert s + [a] + [v] == s + [a, v];
    RunStore(a, v, [OP_LD_STACK] + rest, s, m2, sys);
    RunLoadStack(a, rest, s, Store(m2, a, v), sys);
    LoadStored(m2, a, v);
  }

  lemma AssignCode(n: Node, rest: seq<Byte>)
    requires n.Node? && n.kind.Assign? && n.child.Node?
    ensures Full(n, false) + rest ==
      Full(n.child, true) + (FullList(n.child.sibling, false) + ([OP_ST] + ([OP_LD_STACK] + rest)))
  {
    var l, r := n.child, n.child.sibling;
    assert FullList(l, true) == Full(l, true) + FullList(r, false);
    assert [OP_ST, OP_LD_STACK] + rest == [OP_ST] + ([OP_LD_STACK] + rest);
    Join(FullList(l, true), [OP_ST, OP_LD_STACK], rest);
    Join(Full(l, true), FullList(r, false), [OP_ST, OP_LD_STACK] + rest);
  }

  /** The code of a call: the function, the arguments, the call itself. */
  lemma CallCode(n: Node, rest: seq<Byte>)
    requires Shaped(n) && n.kind.Func?
    ensures Full(n, false) + rest ==
      [OP_LD] + Little(n.child.kind.at) + (FullList(n.child.sibling, false) + ([OP_SYSCALL, Length(n.child.sibling)] + rest))
  {
    var f, args := n.child, n.child.sibling;
    CallOwn(n);
    hide Little, Full, FullList, FullOwn, Shaped, Length;
    FullParts(n, false);
    FullLeaf(f, false);
    FullListParts(f, false);
    Join(FullList(f, false), FullOwn(n, false), rest);
    Join(Full(f, false), FullList(args, false), FullOwn(n, false) + rest);
  }

  lemma CallOwn(n: Node)
    requires Shaped(n) && n.kind.Func?
    ensures n.child.Node? && n.child.child.Nil? && n.child.kind.Id? && Length(n.child.sibling) <= 16
    ensures FullOwn(n, false) == [OP_SYSCALL, Length(n.child.sibling)]
    ensures FullOwn(n.child, false) == [OP_LD] + Little(n.child.kind.at)
  {
    hide Little;
  }

  lemma {:induction false} FuncRuns(n: Node, rest: seq<Byte>, s: seq<Word32>, m: Mem, sys: Calls)
    requires Shaped(n) && n.kind.Func? && |s| + Need(n) <= STACK_MAX
    ensures Exec(Full(n, false) + rest, s, m, sys) == var (v, m') := Eval(n, m, sys); Exec(rest, s + [v], m', sys)
    decreases n, 0
  {
    hide Exec, Load, Store, Little, StepCode, Apply, Full, FullList, EvalAll, NeedAll;
    var f, args := n.child, n.child.sibling;
    NeedFirst(f);
    CallList(f, m, sys);
    CallCode(n, rest);
    var more := [OP_SYSCALL, Length(args)] + rest;
    RunLoad(f.kind.at, FullList(args, false) + more, s, m, sys);
    FullListRuns(args, more, s + [f.kind.at], m, sys);
    var (vs, m1) := EvalAll(args, m, sys);
    LengthEvaluated(args, m, sys);
    assert s + [f.kind.at] + vs == s + ([f.kind.at] + vs);
    assert ([f.kind.at] + vs)[1..] == vs;
    RunCall(f.kind.at, vs, rest, s, m1, sys);
  }

  lemma {:induction false} LengthEvaluated(n: Node, m: Mem, sys: Calls)
    ensures |EvalAll(n, m, sys).0| == Length(n)
  {
    if n.Node? {
      LengthEvaluated(n.sibling, Eval(n, m, sys).1, sys);
    }
  }
  // ---- what the compiler emits ---------------------------------------------------------------------

  /** The parts of a checked node and of its code. */
  lemma Parts(n: Node, isAddr: bool)
    requires n.Node? && Fresh(n)
    ensures var t := TypeCheck(n, isAddr);
      && t.Node? && t.kind == n.kind && t.dataType == TypeOf(n)
      && t.address == (isAddr && !(n.kind.Id? && n.kind.id.SysCall?))
      && t.child == TypeCheck(n.child, ChildAddr(n.kind, isAddr)) && t.sibling == TypeCheck(n.sibling, false)
      && Body(t) == Code(t.child) + Own(t) && Code(t) == Body(t) + Code(t.sibling)
    ensures Fresh(n.child) && Fresh(n.sibling)
  {
    TypeChecked(n, isAddr);
  }

  lemma NoCode()
    ensures Code(TypeCheck(Nil, false)) == [] && Code(TypeCheck(Nil, true)) == [] && Code(Nil) == []
  {
  }

  /** A node without siblings. */
  lemma Alone(n: Node, isAddr: bool)
    requires n.Node? && Fresh(n) && n.sibling.Nil?
    ensures Code(TypeCheck(n, isAddr)) == Body(TypeCheck(n, isAddr))
  {
    Parts(n, isAddr);
  }

  /** Where a node's own code is complete. */
  predicate OwnTyped(n: Node, isAddr: bool)
    requires n.Node?
  {
    match n.kind
    case Id(id, ty, _) => id.SysCall? || ty.Plain?
    case Bin(_) => TypeOf(n.child) == DoubleWord
    case Bitwise => TypeOf(n.child) == DoubleWord
    case Assign => TypeOf(n.child) == DoubleWord
    case GetValue => isAddr || TypeOf(n.child) == DoubleWord
    case _ => true
  }

  /** `code` is the complete code `full` if `typed`, and else shorter. */
  predicate Compared(code: seq<Byte>, full: seq<Byte>, typed: bool) {
    if typed then code == full else |code| < |full|
  }

  lemma ComparedBoth(c1: seq<Byte>, f1: seq<Byte>, t1: bool, c2: seq<Byte>, f2: seq<Byte>, t2: bool)
    requires Compared(c1, f1, t1) && Compared(c2, f2, t2)
    ensures Compared(c1 + c2, f1 + f2, t1 && t2)
  {
  }

  /** A node's own code is complete exactly where the compiler finds the types it tests for. */
  lemma OwnMatches(n: Node, isAddr: bool)
    requires Fresh(n) && ShapedAs(n, isAddr)
    ensures Compared(Own(TypeCheck(n, isAddr)), FullOwn(n, isAddr), OwnTyped(n, isAddr))
  {
    hide TypeCheck, Code, Body, Little, StepCode;
    Parts(n, isAddr);
    if n.child.Node? {
      LengthChecked(n.child.sibling);
      Parts(n.child, ChildAddr(n.kind, isAddr));
      assert TypeOf(n) == TypeOf(n.child);
      assert ShapedVariable(n.child) ==> TypeOf(n.child) == DoubleWord;
    }
    match n.kind
    case Id(_, _, _) =>
    case Value(_) =>
    case Bin(_) =>
    case Bitwise =>
    case Func =>
    case Assign => assert ShapedPlace(n.child) && (n.child.kind.Id? || n.child.kind.GetValue?);
    case PreInc =>
    case PreDec =>
    case Inc =>
    case Dec =>
    case GetValue =>
    case GetAddr =>
  }

  /** The compiler's code of a shaped tree is the complete code exactly when the tree is typed. */
  lemma {:induction false} Matches(n: Node, isAddr: bool)
    requires Fresh(n) && ShapedAs(n, isAddr)
    ensures Compared(Body(TypeCheck(n, isAddr)), Full(n, isAddr), TypedAs(n, isAddr))
    decreases n, 1
  {
    hide TypeCheck, Own, FullOwn, Code, FullList, Body, Full;
    var t, ca := TypeCheck(n, isAddr), ChildAddr(n.kind, isAddr);
    Parts(n, isAddr);
    OwnMatches(n, isAddr);
    FullParts(n, isAddr);
    ChildrenMatch(n, isAddr);
    ComparedBoth(Code(t.child), FullList(n.child, ca), ChildrenTyped(n, isAddr), Own(t), FullOwn(n, isAddr), OwnTyped(n, isAddr));
    TypedSplit(n, isAddr);
  }

  lemma FullParts(n: Node, isAddr: bool)
    requires n.Node?
    ensures Full(n, isAddr) == FullList(n.child, ChildAddr(n.kind, isAddr)) + FullOwn(n, isAddr)
  {
  }

  predicate ChildrenTyped(n: Node, isAddr: bool)
    requires n.Node?
  {
    n.child.Nil? || n.kind.Id? || n.kind.Value?
    || (if n.kind.Func? then Exprs(n.child.sibling)
        else TypedAs(n.child, ChildAddr(n.kind, isAddr)) && Exprs(n.child.sibling))
  }

  lemma OneExpression(n: Node)
    requires n.Node? && n.sibling.Nil?
    ensures Exprs(n) <==> Expr(n)
  {
    assert Exprs(n.sibling);
  }

  lemma TypedSplit(n: Node, isAddr: bool)
    requires ShapedAs(n, isAddr)
    ensures TypedAs(n, isAddr) <==> ChildrenTyped(n, isAddr) && OwnTyped(n, isAddr)
  {
    if n.child.Node? && !n.kind.Func? {
      var c, r := n.child, n.child.sibling;
      assert Exprs(Nil) && (Exprs(r) <==> r.Nil? || (Expr(r) && Exprs(r.sibling)));
      if n.kind.PreInc? || n.kind.PreDec? || n.kind.Inc? || n.kind.Dec? {
        assert Variable(c) <==> TypedAs(c, ChildAddr(n.kind, isAddr));
      }
    }
    match n.kind
    case Id(_, _, _) =>
    case Value(_) =>
    case Bin(_) =>
      assert Shaped(n);
      assert Shaped(n.child) && Shaped(n.child.sibling);
      OneExpression(n.child.sibling);
    case Bitwise => assert Shaped(n) && Shaped(n.child);
    case Func =>
    case Assign =>
      assert Shaped(n);
      assert ShapedPlace(n.child) && Shaped(n.child.sibling);
      OneExpression(n.child.sibling);
    case PreInc =>
    case PreDec =>
    case Inc =>
    case Dec =>
    case GetValue => assert Shaped(n.child);
    case GetAddr => assert Shaped(n) && ShapedPlace(n.child);
  }

  lemma {:induction false} ChildrenMatch(n: Node, isAddr: bool)
    requires Fresh(n) && ShapedAs(n, isAddr)
    ensures Compared(Code(TypeCheck(n.child, ChildAddr(n.kind, isAddr))), FullList(n.child, ChildAddr(n.kind, isAddr)), ChildrenTyped(n, isAddr))
    decreases n, 0
  {
    hide TypeCheck, Own, FullOwn, Code, FullList, Body, Full;
    var ca := ChildAddr(n.kind, isAddr);
    if n.child.Nil? {
      NothingMatches(ca);
    } else if n.kind.Func? {
      CallMatches(n.child);
    } else {
      assert Fresh(n.child) && ShapedAs(n.child, ca) && ShapedList(n.child.sibling);
      ListMatches(n.child, ca);
    }
  }

  lemma NothingMatches(isAddr: bool)
    ensures Code(TypeCheck(Nil, isAddr)) == [] == FullList(Nil, isAddr)
  {
  }

  /** A node and its siblings. */
  lemma {:induction false} ListMatches(n: Node, isAddr: bool)
    requires n.Node? && Fresh(n) && ShapedAs(n, isAddr) && ShapedList(n.sibling)
    ensures Compared(Code(TypeCheck(n, isAddr)), FullList(n, isAddr), TypedAs(n, isAddr) && Exprs(n.sibling))
    decreases n, 2
  {
    hide TypeCheck, Own, FullOwn, Code, FullList, Body, Full;
    Parts(n, isAddr);
    FullListParts(n, isAddr);
    Matches(n, isAddr);
    SiblingsMatch(n.sibling);
    ComparedBoth(Body(TypeCheck(n, isAddr)), Full(n, isAddr), TypedAs(n, isAddr),
                 Code(TypeCheck(n.sibling, false)), FullList(n.sibling, false), Exprs(n.sibling));
  }

  lemma {:induction false} SiblingsMatch(n: Node)
    requires Fresh(n) && ShapedList(n)
    ensures Compared(Code(TypeCheck(n, false)), FullList(n, false), Exprs(n))
    decreases n, 3
  {
    if n.Nil? {
      NothingMatches(false);
    } else {
      ListMatches(n, false);
    }
  }

  lemma FullListParts(n: Node, isAddr: bool)
    requires n.Node?
    ensures FullList(n, isAddr) == Full(n, isAddr) + FullList(n.sibling, false)
  {
  }

  /** The function of a call and its arguments. */
  lemma {:induction false} CallMatches(n: Node)
    requires n.Node? && n.kind.Id? && n.kind.id.SysCall? && n.child.Nil? && Fresh(n) && ShapedList(n.sibling)
    ensures Compared(Code(TypeCheck(n, false)), FullList(n, false), Exprs(n.sibling))
    decreases n, 2
  {
    CallStart(n);
    hide TypeCheck, Own, FullOwn, Code, FullList, Body, Full;
    Parts(n, false);
    FullListParts(n, false);
    SiblingsMatch(n.sibling);
    ComparedBoth(Body(TypeCheck(n, false)), Full(n, false), true,
                 Code(TypeCheck(n.sibling, false)), FullList(n.sibling, false), Exprs(n.sibling));
  }

  lemma CallStart(n: Node)
    requires n.Node? && n.kind.Id? && n.kind.id.SysCall? && n.child.Nil? && Fresh(n)
    ensures Body(TypeCheck(n, false)) == Full(n, false)
  {
    Parts(n, false);
    NoCode();
    FullLeaf(n, false);
  }

  lemma LengthChecked(n: Node)
    ensures Length(TypeCheck(n, false)) == Length(n)
  {
  }

  /** The same for a list of statements. */
  lemma {:induction false} ProgramMatches(n: Node)
    requires n.Node? && Fresh(n) && ShapedList(n)
    ensures Compared(Program(TypeCheck(n, false)), FullProgram(n), Exprs(n))
    decreases n
  {
    hide TypeCheck, Own, FullOwn, Code, FullList, Body, Full, Expr, Shaped;
    var t := TypeCheck(n, false);
    Parts(n, false);
    ShapedFirst(n);
    Matches(n, false);
    if n.sibling.Nil? {
      assert t.sibling.Nil?;
      ComparedBoth(Body(t), Full(n, false), Expr(n), [], [], true);
    } else {
      ProgramMatches(n.sibling);
      ComparedBoth([OP_POP], [OP_POP], true, Program(t.sibling), FullProgram(n.sibling), Exprs(n.sibling));
      ComparedBoth(Body(t), Full(n, false), Expr(n), [OP_POP] + Program(t.sibling), [OP_POP] + FullProgram(n.sibling), Exprs(n.sibling));
    }
  }

  lemma ShapedFirst(n: Node)
    requires n.Node? && ShapedList(n)
    ensures ShapedAs(n, false) && ShapedList(n.sibling) && (Exprs(n) <==> Expr(n) && Exprs(n.sibling)) && TypedAs(n, false) == Expr(n)
  {
  }

  /** Typed trees are shaped. */
  lemma {:induction false} TypedShaped(n: Node, isAddr: bool)
    requires TypedAs(n, isAddr)
    ensures ShapedAs(n, isAddr)
    decreases n, 1
  {
    match n.kind
    case Id(_, _, _) =>
    case Value(_) =>
    case Bin(_) =>
      TypedShaped(n.child, false);
      TypedShaped(n.child.sibling, false);
    case Bitwise => TypedShaped(n.child, false);
    case Func => TypedListShaped(n.child.sibling);
    case Assign =>
      TypedShaped(n.child, true);
      TypedShaped(n.child.sibling, false);
    case PreInc =>
    case PreDec =>
    case Inc =>
    case Dec =>
    case GetValue => TypedShaped(n.child, false);
    case GetAddr => TypedShaped(n.child, true);
  }

  lemma {:induction false} TypedListShaped(n: Node)
    requires Exprs(n)
    ensures ShapedList(n)
    decreases n, 2
  {
    if n.Node? {
      TypedShaped(n, false);
      TypedListShaped(n.sibling);
    }
  }
}
