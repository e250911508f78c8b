/** The compiler and the virtual machine of the shell, over the text segment and the stack. */
module FinshMachine {
  import opened Wrappers
  import opened Bytes
  import opened FinshTree
  import opened FinshCode
  import opened FinshRun
  import opened FinshFull
  import opened FinshProof

  /** Writing on behind what has been written. */
  lemma WriteOn(t: seq<Byte>, p: nat, c: seq<Byte>, d: seq<Byte>)
    requires p + |c| + |d| <= |t|
    ensures Overlaid(Overlaid(t, p, c), p + |c|, d) == Overlaid(t, p, c + d)
  {
  }

  lemma WriteNothing(t: seq<Byte>, p: nat)
    requires p <= |t|
    ensures Overlaid(t, p, []) == t
  {
  }

  /** The compiler: a text segment and the place where the next byte goes. */
  class Compiler {
    const text: array<Byte>
    var pc: nat

    constructor ()
      ensures fresh(text) && text.Length == TEXT_MAX && pc == 0
    {
      text := new Byte[TEXT_MAX](_ => 0);
      pc := 0;
    }

    /** finsh_code_byte. */
    method CodeByte(b: Byte)
      requires pc < text.Length
      modifies this`pc, text
      ensures pc == old(pc) + 1 && text[..] == Overlaid(old(text[..]), old(pc), [b])
    {
      text[pc] := b;
      pc := pc + 1;
    }

    /** finsh_code_dword. */
    method CodeDword(v: Word32)
      requires pc + 4 <= text.Length
      modifies this`pc, text
      ensures pc == old(pc) + 4 && text[..] == Overlaid(old(text[..]), old(pc), Little(v))
    {
      hide ByteOf;
      text[pc] := ByteOf(v, 0);
      text[pc + 1] := ByteOf(v, 1);
      text[pc + 2] := ByteOf(v, 2);
      text[pc + 3] := ByteOf(v, 3);
      pc := pc + 4;
    }

    /** An opcode with a double word behind it. */
    method CodeOp(b: Byte, v: Word32)
      requires pc + 5 <= text.Length
      modifies this`pc, text
      ensures pc == old(pc) + 5 && text[..] == Overlaid(old(text[..]), old(pc), [b] + Little(v))
    {
      hide Little, Overlaid;
      WriteOn(text[..], pc, [b], Little(v));
      CodeByte(b);
      CodeDword(v);
    }

    /** Two opcodes. */
    method CodeTwo(b: Byte, c: Byte)
      requires pc + 2 <= text.Length
      modifies this`pc, text
      ensures pc == old(pc) + 2 && text[..] == Overlaid(old(text[..]), old(pc), [b, c])
    {
      hide Overlaid;
      WriteOn(text[..], pc, [b], [c]);
      assert [b] + [c] == [b, c];
      CodeByte(b);
      CodeByte(c);
    }

    /** The code that steps a variable: load it, load one, add or subtract, store. */
    method CodeStep(at: Word32, op: Byte)
      requires pc + 12 <= text.Length
      modifies this`pc, text
      ensures pc == old(pc) + 12 && text[..] == Overlaid(old(text[..]), old(pc), StepCode(at, op))
    {
      hide Little, Overlaid;
      var c1, c2 := [OP_LD_VALUE] + Little(at), [OP_LD] + Little(1);
      WriteOn(text[..], pc, c1, c2);
      WriteOn(text[..], pc, c1 + c2, [op, OP_ST]);
      assert c1 + c2 + [op, OP_ST] == StepCode(at, op);
      CodeOp(OP_LD_VALUE, at);
      CodeOp(OP_LD, 1);
      CodeTwo(op, OP_ST);
    }

    /** The number of parameters of a call: the siblings of its function. */
    method CountParameters(n: Node) returns (parameters: nat)
      ensures parameters == Length(n)
    {
      parameters := 0;
      var sibling := n;
      while sibling.Node?
        invariant parameters + Length(sibling) == Length(n)
        decreases sibling
      {
        parameters := parameters + 1;
        sibling := sibling.sibling;
      }
    }

    /** What finsh_compile emits for a node itself. */
    method Emit(n: Node)
      requires n.Node? && pc + |Own(n)| <= text.Length
      modifies this`pc, text
      ensures pc == old(pc) + |Own(n)| && text[..] == Overlaid(old(text[..]), old(pc), Own(n))
    {
      hide Little, Overlaid, StepCode;
      WriteNothing(text[..], pc);
      match n.kind {
        case Id(id, ty, at) =>
          if id.SysCall? {
            CodeOp(OP_LD, at);
          } else if ty.Plain? {
            CodeOp(if n.address then OP_LD else OP_LD_VALUE, at);
          }
        case Value(v) => CodeOp(OP_LD, v);
        case Bin(op) => if n.dataType == DoubleWord { CodeByte(OpCode(op)); }
        case Bitwise => if n.dataType == DoubleWord { CodeByte(OP_BITWISE); }
        case Func =>
          if n.child.Node? {
            var parameters := CountParameters(n.child.sibling);
            CodeTwo(OP_SYSCALL, parameters % 0x100);
          }
        case Assign =>
          if n.child.Node? && (n.child.kind.Id? || n.child.kind.GetValue?) && n.child.dataType == DoubleWord {
            CodeTwo(OP_ST, OP_LD_STACK);
          }
        case GetValue => if !n.address && n.dataType == DoubleWord { CodeByte(OP_LD_STACK); }
        case GetAddr =>
        case _ => if StepsId(n) { EmitStep(n); }
      }
    }

    /** The code of ++ and --. */
    method EmitStep(n: Node)
      requires n.Node? && (n.kind.PreInc? || n.kind.PreDec? || n.kind.Inc? || n.kind.Dec?) && StepsId(n)
      requires pc + |Own(n)| <= text.Length
      modifies this`pc, text
      ensures pc == old(pc) + |Own(n)| && text[..] == Overlaid(old(text[..]), old(pc), Own(n))
    {
      hide Little, Overlaid, StepCode;
      var at := n.child.kind.at;
      var op := if n.kind.PreInc? || n.kind.Inc? then OP_ADD else OP_SUB;
      if n.kind.PreInc? || n.kind.PreDec? {
        EmitPre(at, op);
      } else {
        EmitPost(at, op);
      }
    }

    method EmitPre(at: Word32, op: Byte)
      requires pc + |StepCode(at, op)| + 1 <= text.Length
      modifies this`pc, text
      ensures pc == old(pc) + |StepCode(at, op) + [OP_LD_STACK]|
      ensures text[..] == Overlaid(old(text[..]), old(pc), StepCode(at, op) + [OP_LD_STACK])
    {
      StepSize(at, op);
      hide Little, Overlaid, StepCode;
      WriteOn(text[..], pc, StepCode(at, op), [OP_LD_STACK]);
      CodeStep(at, op);
      CodeByte(OP_LD_STACK);
    }

    method EmitPost(at: Word32, op: Byte)
      requires pc + |[OP_LD] + Little(at) + StepCode(at, op) + [OP_POP]| <= text.Length
      modifies this`pc, text
      ensures pc == old(pc) + |[OP_LD] + Little(at) + StepCode(at, op) + [OP_POP]|
      ensures text[..] == Overlaid(old(text[..]), old(pc), [OP_LD] + Little(at) + StepCode(at, op) + [OP_POP])
    {
      StepSize(at, op);
      hide Little, Overlaid, StepCode;
      var load, step := [OP_LD] + Little(at), StepCode(at, op);
      WriteOn(text[..], pc, load, step);
      WriteOn(text[..], pc, load + step, [OP_POP]);
      CodeOp(OP_LD, at);
      CodeStep(at, op);
      CodeByte(OP_POP);
    }

    lemma StepSize(at: Word32, op: Byte)
      ensures |StepCode(at, op)| == 12 && |Little(at)| == 4
    {
    }

    /** finsh_compile. */
    method Compile(n: Node)
      requires pc + |Code(n)| <= text.Length
      modifies this`pc, text
      ensures pc == old(pc) + |Code(n)| && text[..] == Overlaid(old(text[..]), old(pc), Code(n))
      decreases n
    {
      hide Overlaid, Own;
      WriteNothing(text[..], pc);
      if n.Node? {
        assert Code(n) == Code(n.child) + Own(n) + Code(n.sibling);
        WriteOn(text[..], pc, Code(n.child), Own(n));
        WriteOn(text[..], pc, Code(n.child) + Own(n), Code(n.sibling));
        Compile(n.child);
        Emit(n);
        Compile(n.sibling);
      }
    }

    /** A node whose sibling link has been cut has the code of its body. */
    lemma CutOff(n: Node)
      requires n.Node?
      ensures Code(n.(sibling := Nil)) == Body(n)
    {
      assert Own(n.(sibling := Nil)) == Own(n);
      assert Body(n) + [] == Body(n);
    }

    /** finsh_compiler_run: checks the types, clears the text segment, and compiles statement after
        statement. */
    method Run(n: Node)
      requires text.Length == TEXT_MAX && |Program(TypeCheck(n, false))| <= TEXT_MAX
      modifies this`pc, text
      ensures pc == |Program(TypeCheck(n, false))|
      ensures text[..] == Program(TypeCheck(n, false)) + Zeros(TEXT_MAX - pc)
    {
      var t := TypeCheck(n, false);
      for i := 0 to text.Length
        invariant forall j :: 0 <= j < i ==> text[j] == 0
      {
        text[i] := 0;
      }
      assert text[..] == Zeros(TEXT_MAX);
      pc := 0;
      CompileAll(t);
      assert Overlaid(Zeros(TEXT_MAX), 0, Program(t)) == Program(t) + Zeros(TEXT_MAX - pc);
    }

    /** The statement loop of finsh_compiler_run. */
    method CompileAll(t: Node)
      requires pc == 0 && |Program(t)| <= text.Length
      modifies this`pc, text
      ensures pc == |Program(t)| && text[..] == Overlaid(old(text[..]), 0, Program(t))
    {
      hide Overlaid, Own, Code, Body;
      var sibling := t;
      ghost var z, c: seq<Byte> := text[..], [];
      WriteNothing(z, 0);
      while sibling.Node?
        invariant pc == |c| && c + Program(sibling) == Program(t) && text[..] == Overlaid(z, 0, c)
        decreases sibling
      {
        var current := sibling;
        sibling := current.sibling;
        CutOff(current);
        WriteOn(z, 0, c, Body(current));
        Compile(current.(sibling := Nil));
        c := c + Body(current);
        if sibling.Node? {
          WriteOn(z, 0, c, [OP_POP]);
          CodeByte(OP_POP);
          c := c + [OP_POP];
        }
      }
      assert c + [] == c;
    }
  }

  lemma ExecNext(code: seq<Byte>, s: seq<Word32>, m: Mem, sys: Calls)
    requires code != [] && Exec(code, s, m, sys).Done?
    ensures Size(code[0]) <= |code| && Instruction(code, s, m, sys).Done?
    ensures var d := Instruction(code, s, m, sys); Exec(code, s, m, sys) == Exec(code[Size(code[0])..], d.stack, d.mem, sys)
  {
    hide Instruction;
  }

  lemma ExecEmpty(s: seq<Word32>, m: Mem, sys: Calls)
    ensures Exec([], s, m, sys) == Done(s, m)
  {
  }

  /** No instruction takes the stack beyond its size. */
  lemma StackBound(code: seq<Byte>, s: seq<Word32>, m: Mem, sys: Calls)
    requires code != [] && Size(code[0]) <= |code| && |s| <= STACK_MAX && Instruction(code, s, m, sys).Done?
    ensures |Instruction(code, s, m, sys).stack| <= STACK_MAX
  {
    hide Apply, Load, Store, Complement;
  }

  /** The virtual machine: the text segment, the stack, and the memory that loads, stores and system
      calls work on. */
  class Machine {
    const text: array<Byte>
    const stack: array<Word32>
    const sys: Calls
    var pc: nat
    var sp: nat
    var mem: Mem

    ghost predicate Valid()
      reads this
    {
      text.Length == TEXT_MAX && stack.Length == STACK_MAX && pc <= TEXT_MAX && sp <= STACK_MAX
    }

    constructor (text: array<Byte>, sys: Calls, mem: Mem)
      requires text.Length == TEXT_MAX
      ensures Valid() && this.text == text && this.sys == sys && this.mem == mem && fresh(stack)
    {
      this.text, this.sys, this.mem := text, sys, mem;
      stack := new Word32[STACK_MAX](_ => 0);
      pc, sp := 0, 0;
    }

    /** What running the rest of the text will leave. */
    ghost function Future(): Outcome
      requires Valid()
      reads this, text, stack
    {
      Exec(text[pc..], stack[..sp], mem, sys)
    }

    /** The instruction at `pc` has left the stack `s` and the memory `m`. */
    ghost predicate Becomes(s: seq<Word32>, m: Mem)
      requires Valid()
      reads this, text, stack
    {
      pc < TEXT_MAX && Size(text[pc]) <= TEXT_MAX - pc && Instruction(text[pc..], stack[..sp], mem, sys) == Done(s, m)
    }

    /** A machine that is not stuck can run its next instruction. */
    lemma Next() returns (s: seq<Word32>, m: Mem)
      requires Valid() && pc < TEXT_MAX && Future().Done?
      ensures Becomes(s, m) && |s| <= STACK_MAX && Future() == Exec(text[pc + Size(text[pc])..], s, m, sys)
    {
      hide Instruction, Exec;
      var code := text[pc..];
      ExecNext(code, stack[..sp], mem, sys);
      var done := Instruction(code, stack[..sp], mem, sys);
      s, m := done.stack, done.mem;
      StackBound(code, stack[..sp], mem, sys);
      assert code[Size(code[0])..] == text[pc + Size(text[pc])..];
    }

    /** finsh_vm_run: from the bottom of the stack and the start of the text, until `pc` has left
        the text. It ends, since every instruction moves `pc` up. */
    method Run()
      requires Valid() && Exec(text[..], [], mem, sys).Done?
      modifies this, stack
      ensures Valid() && Done(stack[..sp], mem) == old(Exec(text[..], [], mem, sys))
    {
      hide Exec, Instruction;
      sp := 0;
      pc := 0;
      assert text[0..] == text[..] && stack[..0] == [];
      while pc < TEXT_MAX
        invariant Valid() && Future() == old(Exec(text[..], [], mem, sys))
        decreases TEXT_MAX - pc
      {
        ghost var s, m := Next();
        Dispatch(s, m);
      }
      assert text[pc..] == [];
      ExecEmpty(stack[..sp], mem, sys);
    }

    /** Fetches an opcode and runs its routine. */
    method Dispatch(ghost s: seq<Word32>, ghost m: Mem)
      requires Valid() && Becomes(s, m) && |s| <= STACK_MAX
      modifies this, stack
      ensures Valid() && stack[..sp] == s && mem == m && pc == old(pc) + Size(text[old(pc)])
    {
      hide Apply, Load, Store, Complement, Exec;
      var op := text[pc];
      if op == 0 {
        pc := pc + 1;
      } else if op == OP_LD {
        OpLd(s, m);
      } else if op == OP_LD_VALUE {
        OpLdValue(s, m);
      } else if op == OP_LD_STACK || op == OP_BITWISE {
        OpTop(op, s, m);
      } else if op == OP_POP {
        pc := pc + 1;
        sp := sp - 1;
      } else if op == OP_ST {
        OpSt(s, m);
      } else if op == OP_SYSCALL {
        OpCall(s, m);
      } else {
        OpBin(Operator(op).value, s, m);
      }
    }

    method OpLd(ghost s: seq<Word32>, ghost m: Mem)
      requires Valid() && Becomes(s, m) && text[pc] == OP_LD && |s| <= STACK_MAX
      modifies this`pc, this`sp, stack
      ensures Valid() && stack[..sp] == s && mem == m && pc == old(pc) + 5
    {
      hide Load;
      pc := pc + 1;
      stack[sp] := Dword(text[pc], text[pc + 1], text[pc + 2], text[pc + 3]);
      sp := sp + 1;
      pc := pc + 4;
    }

    method OpLdValue(ghost s: seq<Word32>, ghost m: Mem)
      requires Valid() && Becomes(s, m) && text[pc] == OP_LD_VALUE && |s| <= STACK_MAX
      modifies this`pc, this`sp, stack
      ensures Valid() && stack[..sp] == s && mem == m && pc == old(pc) + 5
    {
      hide Load;
      pc := pc + 1;
      var l := Dword(text[pc], text[pc + 1], text[pc + 2], text[pc + 3]);
      stack[sp] := Load(mem, l);
      sp := sp + 1;
      pc := pc + 4;
    }

    /** The instructions that change the top cell. */
    method OpTop(op: Byte, ghost s: seq<Word32>, ghost m: Mem)
      requires Valid() && Becomes(s, m) && op == text[pc] && (op == OP_LD_STACK || op == OP_BITWISE)
      modifies this`pc, stack
      ensures Valid() && stack[..sp] == s && mem == m && pc == old(pc) + 1
    {
      hide Load, Complement;
      pc := pc + 1;
      stack[sp - 1] := if op == OP_BITWISE then Complement(stack[sp - 1]) else Load(mem, stack[sp - 1]);
    }

    method OpSt(ghost s: seq<Word32>, ghost m: Mem)
      requires Valid() && Becomes(s, m) && text[pc] == OP_ST
      modifies this`pc, this`sp, this`mem
      ensures Valid() && stack[..sp] == s && mem == m && pc == old(pc) + 1
    {
      hide Load, Store;
      pc := pc + 1;
      mem := Store(mem, stack[sp - 2], stack[sp - 1]);
      sp := sp - 1;
    }

    method OpBin(op: BinOp, ghost s: seq<Word32>, ghost m: Mem)
      requires Valid() && Becomes(s, m) && Operator(text[pc]) == Some(op)
      modifies this`pc, this`sp, stack
      ensures Valid() && stack[..sp] == s && mem == m && pc == old(pc) + 1
    {
      hide Apply;
      pc := pc + 1;
      stack[sp - 2] := Apply(op, stack[sp - 2], stack[sp - 1]);
      sp := sp - 1;
    }

    /** OP_call: takes the arguments off the stack into an array, last one first, then calls the
        function below them and leaves its result in its place. */
    method OpCall(ghost s: seq<Word32>, ghost m: Mem)
      requires Valid() && Becomes(s, m) && text[pc] == OP_SYSCALL
      modifies this`pc, this`sp, this`mem, stack
      ensures Valid() && stack[..sp] == s && mem == m && pc == old(pc) + 2
    {
      var parameters := text[pc + 1];
      ghost var cells := stack[..sp];
      CallIs(cells, s, m);
      pc := pc + 2;
      var args := TakeParameters(parameters);
      var f := stack[sp];
      var (r, m') := sys(f, args, mem);
      mem := m';
      PutResult(r);
    }

    /** What a call instruction comes to. */
    lemma CallIs(cells: seq<Word32>, s: seq<Word32>, m: Mem)
      requires Valid() && Becomes(s, m) && text[pc] == OP_SYSCALL && cells == stack[..sp]
      ensures pc + 1 < TEXT_MAX && text[pc + 1] <= 16 && text[pc + 1] + 1 <= sp
      ensures var base := sp - text[pc + 1] - 1;
        var (r, m') := sys(cells[base], cells[base + 1..], mem); m == m' && s == cells[..base] + [r]
    {
    }

    /** Takes the arguments of a call off the stack, last one first; `sp` is left at the function. */
    method TakeParameters(parameters: nat) returns (args: seq<Word32>)
      requires Valid() && parameters <= 16 && parameters + 1 <= sp
      modifies this`sp
      ensures sp == old(sp) - parameters - 1 && args == stack[sp + 1..old(sp)]
    {
      var parameterv := new Word32[16](_ => 0);
      ghost var base := sp - parameters - 1;
      var i := 0;
      sp := sp - 1;
      while i < parameters
        invariant 0 <= i <= parameters && sp == old(sp) - 1 - i
        invariant forall j :: parameters - i <= j < parameters ==> parameterv[j] == stack[base + 1 + j]
      {
        parameterv[parameters - 1 - i] := stack[sp];
        sp := sp - 1;
        i := i + 1;
      }
      args := parameterv[..parameters];
    }

    /** Stores the result of a call in the cell of its function. */
    method PutResult(r: Word32)
      requires Valid() && sp < STACK_MAX
      modifies this`sp, stack
      ensures sp == old(sp) + 1 && stack[..sp] == old(stack[..sp]) + [r]
    {
      stack[sp] := r;
      sp := sp + 1;
    }
  }

  /** Compiling and running a list of statements: the value of the last one is left alone at the
      bottom of the stack, and the memory is as if they had been evaluated directly. */
  method Shell(n: Node, mem: Mem, sys: Calls) returns (value: Word32, after: Mem)
    requires n.Node? && Fresh(n) && Exprs(n) && NeedProgram(n) <= STACK_MAX
    requires |Program(TypeCheck(n, false))| <= TEXT_MAX
    ensures (value, after) == EvalProgram(n, mem, sys)
  {
    hide Exec, Program, TypeCheck, EvalProgram, NeedProgram, Exprs, Fresh;
    var compiler := new Compiler();
    compiler.Run(n);
    ShellRuns(n, TEXT_MAX - compiler.pc, mem, sys);
    var vm := new Machine(compiler.text, sys, mem);
    vm.Run();
    value, after := vm.stack[0], vm.mem;
  }
}
