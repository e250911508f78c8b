/** The compiled code of a program, run on the stack machine, leaves the value of its last statement and
    the memory of direct evaluation; and where the compiler goes wrong. */
module FinshProof {
  import opened Arithmetic
  import opened Wrappers
  import opened Bytes
  import opened FinshTree
  import opened FinshCode
  import opened FinshRun
  import opened FinshFull

  // ---- expressions ------------------------------------------------------------------------------

  /** The code of an expression raises the stack by exactly its value, the code of an l-value by
      its address; lower cells stay, and the memory is that of the direct evaluator. */
  lemma BodyRuns(n: Node, isAddr: bool, rest: seq<Byte>, s: seq<Word32>, m: Mem, sys: Calls)
    requires n.Node? && Fresh(n) && (if isAddr then Place(n) else Expr(n)) && |s| + Need(n) <= STACK_MAX
    ensures Exec(Body(TypeCheck(n, isAddr)) + rest, s, m, sys) ==
      var (v, m') := Meaning(n, isAddr, m, sys); Exec(rest, s + [v], m', sys)
  {
    hide Exec, Body, Full, TypeCheck, Meaning, Shaped, ShapedPlace, Expr, Place, Fresh, Need;
    TypedShaped(n, isAddr);
    Matches(n, isAddr);
    FullRuns(n, isAddr, rest, s, m, sys);
  }

  /** The code of a list of expressions pushes their values in order. */
  lemma ListRuns(n: Node, rest: seq<Byte>, s: seq<Word32>, m: Mem, sys: Calls)
    requires Fresh(n) && Exprs(n) && |s| + NeedAll(n) <= STACK_MAX
    ensures Exec(Code(TypeCheck(n, false)) + rest, s, m, sys) ==
      var (vs, m') := EvalAll(n, m, sys); Exec(rest, s + vs, m', sys)
  {
    hide Exec, Code, FullList, TypeCheck, EvalAll, ShapedList, Exprs, Fresh, NeedAll;
    TypedListShaped(n);
    SiblingsMatch(n);
    FullListRuns(n, rest, s, m, sys);
  }

  // ---- statement lists --------------------------------------------------------------------------

  /** The statements evaluated one after the other; the value is that of the last one. */
  function EvalProgram(n: Node, m: Mem, sys: Calls): (Word32, Mem)
    requires n.Node?
  {
    var (v, m1) := Eval(n, m, sys);
    if n.sibling.Nil? then (v, m1) else EvalProgram(n.sibling, m1, sys)
  }

  /** The stack cells that every statement alone needs. */
  function NeedProgram(n: Node): nat {
    if n.Nil? then 0 else Max(Need(n), NeedProgram(n.sibling))
  }

  /** The program leaves one value, that of its last statement. */
  lemma {:induction false} ProgramRuns(n: Node, rest: seq<Byte>, s: seq<Word32>, m: Mem, sys: Calls)
    requires n.Node? && Fresh(n) && Exprs(n) && |s| + NeedProgram(n) <= STACK_MAX
    ensures Exec(Program(TypeCheck(n, false)) + rest, s, m, sys) ==
      var (v, m') := EvalProgram(n, m, sys); Exec(rest, s + [v], m', sys)
    decreases n
  {
    hide Exec, TypeCheck, Code, Body, Need, Own, Expr, Fresh, Eval;
    var t := TypeCheck(n, false);
    Parts(n, false);
    var (v, m1) := Eval(n, m, sys);
    if n.sibling.Nil? {
      assert t.sibling.Nil?;
      assert Program(t) == Body(t) + [];
      assert Body(t) + [] == Body(t);
      BodyRuns(n, false, rest, s, m, sys);
    } else {
      var more := Program(t.sibling) + rest;
      assert t.sibling.Node?;
      Join(Body(t), [OP_POP] + Program(t.sibling), rest);
      Join([OP_POP], Program(t.sibling), rest);
      BodyRuns(n, false, [OP_POP] + more, s, m, sys);
      RunPop(v, more, s, m1, sys);
      ProgramRuns(n.sibling, rest, s, m1, sys);
    }
  }

  /** A whole text segment, the program and the zeros behind it: the machine halts with the value
      of the last statement at the bottom of the stack and nothing above it. */
  lemma ShellRuns(n: Node, fill: nat, m: Mem, sys: Calls)
    requires n.Node? && Fresh(n) && Exprs(n) && NeedProgram(n) <= STACK_MAX
    ensures Exec(Program(TypeCheck(n, false)) + Zeros(fill), [], m, sys) ==
      var (v, m') := EvalProgram(n, m, sys); Done([v], m')
  {
    hide Exec, TypeCheck, Program, EvalProgram, NeedProgram, Expr, Fresh;
    var (v, m') := EvalProgram(n, m, sys);
    ProgramRuns(n, Zeros(fill), [], m, sys);
    assert [] + [v] == [v];
    RunZeros(fill, [v], m', sys);
  }

  // ---- where the compiler goes wrong --------------------------------------------------------------

  /** The complete code of statements always leaves the value of the last one, whatever the types. */
  lemma {:induction false} FullProgramRuns(n: Node, rest: seq<Byte>, s: seq<Word32>, m: Mem, sys: Calls)
    requires n.Node? && ShapedList(n) && |s| + NeedProgram(n) <= STACK_MAX
    ensures Exec(FullProgram(n) + rest, s, m, sys) ==
      var (v, m') := EvalProgram(n, m, sys); Exec(rest, s + [v], m', sys)
    decreases n
  {
    hide Exec, Full, Need, Shaped, Eval;
    var (v, m1) := Eval(n, m, sys);
    assert ShapedAs(n, false);
    if n.sibling.Nil? {
      assert FullProgram(n) == Full(n, false) + [];
      assert Full(n, false) + [] == Full(n, false);
      FullRuns(n, false, rest, s, m, sys);
    } else {
      var more := FullProgram(n.sibling) + rest;
      Join(Full(n, false), [OP_POP] + FullProgram(n.sibling), rest);
      Join([OP_POP], FullProgram(n.sibling), rest);
      FullRuns(n, false, [OP_POP] + more, s, m, sys);
      RunPop(v, more, s, m1, sys);
      FullProgramRuns(n.sibling, rest, s, m1, sys);
    }
  }

  /** The compiler emits the complete code of an expression exactly when every operator that tests its
      type finds a double word and no variable is a `void*`, at any depth; otherwise its code is
      shorter. */
  lemma CompleteIffTyped(n: Node)
    requires Fresh(n) && Shaped(n)
    ensures Body(TypeCheck(n, false)) == Full(n, false) <==> Expr(n)
    ensures !Expr(n) ==> |Body(TypeCheck(n, false))| < |Full(n, false)|
  {
    hide Body, Full, TypeCheck, Expr, Shaped, Fresh;
    Matches(n, false);
  }

  /** The same for a list of statements. */
  lemma ProgramCompleteIffTyped(n: Node)
    requires n.Node? && Fresh(n) && ShapedList(n)
    ensures Program(TypeCheck(n, false)) == FullProgram(n) <==> Exprs(n)
    ensures !Exprs(n) ==> |Program(TypeCheck(n, false))| < |FullProgram(n)|
  {
    hide Program, FullProgram, TypeCheck, Exprs, ShapedList, Fresh;
    ProgramMatches(n);
  }

  /** A binary operator whose first operand has no type, a system call, gets no code: both operands stay
      on the stack. */
  lemma UntypedOperand(n: Node, rest: seq<Byte>, s: seq<Word32>, m: Mem, sys: Calls)
    requires n.Node? && n.kind.Bin? && Fresh(n) && |s| + Need(n) <= STACK_MAX && TypeOf(n.child) == Untyped
    requires Expr(n.child) && Expr(n.child.sibling) && n.child.sibling.sibling.Nil?
    ensures Exec(Body(TypeCheck(n, false)) + rest, s, m, sys) ==
      var (a, m1) := Eval(n.child, m, sys);
      var (b, m2) := Eval(n.child.sibling, m1, sys);
      Exec(rest, s + [a, b], m2, sys)
  {
    hide Exec, TypeCheck, Code, Body, Fresh, Exprs, EvalAll, NeedAll, Eval;
    var t := TypeCheck(n, false);
    Parts(n, false);
    assert Own(t) == [];
    assert Body(t) == Code(t.child);
    TwoExpressions(n.child);
    Pair(n.child, m, sys);
    ListRuns(n.child, rest, s, m, sys);
  }

  /** Neither does a complement or a dereference of such an operand: the operand stays as it is. */
  lemma UntypedUnary(n: Node, rest: seq<Byte>, s: seq<Word32>, m: Mem, sys: Calls)
    requires n.Node? && (n.kind.Bitwise? || n.kind.GetValue?) && Fresh(n) && |s| + Need(n) <= STACK_MAX
    requires Expr(n.child) && n.child.sibling.Nil? && TypeOf(n.child) == Untyped
    ensures Exec(Body(TypeCheck(n, false)) + rest, s, m, sys) ==
      var (a, m1) := Eval(n.child, m, sys); Exec(rest, s + [a], m1, sys)
  {
    hide Exec, TypeCheck, Code, Body, Fresh, Exprs, EvalAll, NeedAll, Eval;
    var t := TypeCheck(n, false);
    Parts(n, false);
    assert Own(t) == [];
    assert Body(t) == Code(t.child);
    OneExpression(n.child);
    Single(n.child, m, sys);
    ListRuns(n.child, rest, s, m, sys);
  }

  lemma TwoExpressions(n: Node)
    requires n.Node? && n.sibling.Node? && n.sibling.sibling.Nil? && Expr(n) && Expr(n.sibling)
    ensures Exprs(n)
  {
    OneExpression(n.sibling);
  }

  /** A `void*` variable gets no code either, although its type is double word. */
  lemma VoidPointerSkipped(id: IdKind, at: Word32, isAddr: bool, rest: seq<Byte>, s: seq<Word32>, m: Mem, sys: Calls)
    requires !id.SysCall?
    ensures var n := Node(Id(id, VoidP, at), false, Untyped, Nil, Nil);
      && Fresh(n) && TypeOf(n) == DoubleWord
      && Exec(Body(TypeCheck(n, isAddr)) + rest, s, m, sys) == Exec(rest, s, m, sys)
  {
    var n := Node(Id(id, VoidP, at), false, Untyped, Nil, Nil);
    Parts(n, isAddr);
    NoCode();
    assert Body(TypeCheck(n, isAddr)) == [];
    assert [] + rest == rest;
  }
}
