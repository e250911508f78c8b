/** What single instructions, and short pieces of code, do on the stack machine. */
module FinshRun {
  import opened Wrappers
  import opened Bytes
  import opened FinshTree
  import opened FinshCode

  // ---- single instructions ----------------------------------------------------------------------

  lemma RunLoad(v: Word32, rest: seq<Byte>, s: seq<Word32>, m: Mem, sys: Calls)
    requires |s| < STACK_MAX
    ensures Exec([OP_LD] + Little(v) + rest, s, m, sys) == Exec(rest, s + [v], m, sys)
  {
    var code := [OP_LD] + Little(v) + rest;
    DwordBytes(v);
    assert code[5..] == rest;
  }

  lemma RunLoadValue(at: Word32, rest: seq<Byte>, s: seq<Word32>, m: Mem, sys: Calls)
    requires |s| < STACK_MAX
    ensures Exec([OP_LD_VALUE] + Little(at) + rest, s, m, sys) == Exec(rest, s + [Load(m, at)], m, sys)
  {
    var code := [OP_LD_VALUE] + Little(at) + rest;
    DwordBytes(at);
    assert code[5..] == rest;
  }

  lemma RunLoadStack(a: Word32, rest: seq<Byte>, s: seq<Word32>, m: Mem, sys: Calls)
    ensures Exec([OP_LD_STACK] + rest, s + [a], m, sys) == Exec(rest, s + [Load(m, a)], m, sys)
  {
    assert ([OP_LD_STACK] + rest)[1..] == rest;
    assert (s + [a])[..|s|] == s;
  }

  lemma RunComplement(a: Word32, rest: seq<Byte>, s: seq<Word32>, m: Mem, sys: Calls)
    ensures Exec([OP_BITWISE] + rest, s + [a], m, sys) == Exec(rest, s + [Complement(a)], m, sys)
  {
    assert ([OP_BITWISE] + rest)[1..] == rest;
    assert (s + [a])[..|s|] == s;
  }

  lemma RunBinary(op: BinOp, a: Word32, b: Word32, rest: seq<Byte>, s: seq<Word32>, m: Mem, sys: Calls)
    ensures Exec([OpCode(op)] + rest, s + [a, b], m, sys) == Exec(rest, s + [Apply(op, a, b)], m, sys)
  {
    hide Apply;
    assert ([OpCode(op)] + rest)[1..] == rest;
    assert (s + [a, b])[..|s|] == s;
    assert Operator(OpCode(op)) == Some(op);
  }

  lemma RunPop(a: Word32, rest: seq<Byte>, s: seq<Word32>, m: Mem, sys: Calls)
    ensures Exec([OP_POP] + rest, s + [a], m, sys) == Exec(rest, s, m, sys)
  {
    assert ([OP_POP] + rest)[1..] == rest;
    assert (s + [a])[..|s|] == s;
  }

  lemma RunStore(a: Word32, v: Word32, rest: seq<Byte>, s: seq<Word32>, m: Mem, sys: Calls)
    ensures Exec([OP_ST] + rest, s + [a, v], m, sys) == Exec(rest, s + [a], Store(m, a, v), sys)
  {
    assert ([OP_ST] + rest)[1..] == rest;
    assert (s + [a, v])[..|s| + 1] == s + [a];
  }

  lemma RunCall(f: Word32, args: seq<Word32>, rest: seq<Byte>, s: seq<Word32>, m: Mem, sys: Calls)
    requires |args| <= 16
    ensures Exec([OP_SYSCALL, |args|] + rest, s + ([f] + args), m, sys) ==
      var (r, m') := sys(f, args, m); Exec(rest, s + [r], m', sys)
  {
    var code, t := [OP_SYSCALL, |args|] + rest, s + ([f] + args);
    assert code[2..] == rest;
    assert t[..|s|] == s && t[|s|] == f && t[|s| + 1..] == args;
  }

  /** Opcode 0, with which the text segment is filled, does nothing. */
  lemma {:induction false} RunZeros(n: nat, s: seq<Word32>, m: Mem, sys: Calls)
    ensures Exec(Zeros(n), s, m, sys) == Done(s, m)
  {
    if n > 0 {
      assert Zeros(n)[1..] == Zeros(n - 1);
      RunZeros(n - 1, s, m, sys);
    }
  }

  // ---- pieces of code ---------------------------------------------------------------------------

  function Delta(up: bool): int {
    if up then 1 else -1
  }

  /** Adding one to a variable, or subtracting one, with the address on the stack. */
  lemma RunStep(at: Word32, up: bool, rest: seq<Byte>, s: seq<Word32>, m: Mem, sys: Calls)
    requires |s| + 3 <= STACK_MAX
    ensures Exec(StepCode(at, if up then OP_ADD else OP_SUB) + rest, s + [at], m, sys) ==
      Exec(rest, s + [at], Store(m, at, Wrap(Load(m, at) + Delta(up))), sys)
  {
    hide Exec, Load, Store, Little;
    var op := if up then OP_ADD else OP_SUB;
    var v := Load(m, at);
    var w := Wrap(v + Delta(up));
    var r1 := [op] + ([OP_ST] + rest);
    var r2 := [OP_LD] + Little(1) + r1;
    assert StepCode(at, op) + rest == [OP_LD_VALUE] + Little(at) + r2;
    RunLoadValue(at, r2, s + [at], m, sys);
    RunLoad(1, r1, s + [at] + [v], m, sys);
    assert s + [at] + [v] + [1] == (s + [at]) + [v, 1];
    RunBinary(if up then Add else Sub, v, 1, [OP_ST] + rest, s + [at], m, sys);
    assert s + [at] + [w] == s + [at, w];
    RunStore(at, w, rest, s, m, sys);
  }

  lemma Join(a: seq<Byte>, b: seq<Byte>, c: seq<Byte>)
    ensures a + b + c == a + (b + c)
  {
  }

  /** ++ or -- before the variable. */
  lemma RunPre(at: Word32, up: bool, rest: seq<Byte>, s: seq<Word32>, m: Mem, sys: Calls)
    requires |s| + 3 <= STACK_MAX
    ensures var v := Wrap(Load(m, at) + Delta(up));
      Exec([OP_LD] + Little(at) + (StepCode(at, if up then OP_ADD else OP_SUB) + ([OP_LD_STACK] + rest)), s, m, sys) ==
      Exec(rest, s + [v], Store(m, at, v), sys)
  {
    hide Exec, Load, Store, Little, StepCode, Wrap;
    var v, more := Wrap(Load(m, at) + Delta(up)), [OP_LD_STACK] + rest;
    RunLoad(at, StepCode(at, if up then OP_ADD else OP_SUB) + more, s, m, sys);
    RunStep(at, up, more, s, m, sys);
    RunLoadStack(at, rest, s, Store(m, at, v), sys);
    LoadStored(m, at, v);
  }

  /** ++ or -- behind the variable. */
  lemma RunPost(at: Word32, up: bool, rest: seq<Byte>, s: seq<Word32>, m: Mem, sys: Calls)
    requires |s| + 4 <= STACK_MAX
    ensures
      Exec([OP_LD_VALUE] + Little(at) + ([OP_LD] + Little(at) + (StepCode(at, if up then OP_ADD else OP_SUB) + ([OP_POP] + rest))), s, m, sys)
      == Exec(rest, s + [Load(m, at)], Store(m, at, Wrap(Load(m, at) + Delta(up))), sys)
  {
    hide Exec, Load, Store, Little, StepCode, Wrap;
    var before, more := Load(m, at), [OP_POP] + rest;
    var r1 := StepCode(at, if up then OP_ADD else OP_SUB) + more;
    RunLoadValue(at, [OP_LD] + Little(at) + r1, s, m, sys);
    RunLoad(at, r1, s + [before], m, sys);
    RunStep(at, up, more, s + [before], m, sys);
    RunPop(at, rest, s + [before], Store(m, at, Wrap(before + Delta(up))), sys);
  }
}
