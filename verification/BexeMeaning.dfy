/** What the bytes of a program do to the machine, instruction by instruction, in plain arithmetic. */
module BexeMeaning {
  import opened Options
  import opened Bytes
  import opened BexeCode
  import opened BexeVm
  import opened BexeSim

  /** Register numbers above 15 name r15. */
  predicate Names(code: byte, r: nat) {
    r == if code < 16 then code as nat else 15
  }

  /** The 32-bit little-endian constant at `at`. */
  function Constant(mem: seq<byte>, at: nat): nat
    requires at + 4 <= |mem|
  {
    mem[at] as nat + 0x100 * mem[at + 1] as nat + 0x1_0000 * mem[at + 2] as nat + 0x100_0000 * mem[at + 3] as nat
  }

  lemma ConstantIsVal(mem: seq<byte>, at: nat)
    requires at + 4 <= |mem|
    ensures Val(mem[at..at + 4]) == Constant(mem, at) < U32_SIZE
  {
    assert mem[at..at + 4] == [mem[at]] + mem[at + 1..at + 4];
    assert mem[at + 1..at + 4] == [mem[at + 1]] + mem[at + 2..at + 4];
    assert mem[at + 2..at + 4] == [mem[at + 2]] + mem[at + 3..at + 4];
    assert mem[at + 3..at + 4] == [mem[at + 3]] + [];
    ValFirst(mem[at], mem[at + 1..at + 4]);
    ValFirst(mem[at + 1], mem[at + 2..at + 4]);
    ValFirst(mem[at + 2], mem[at + 3..at + 4]);
    ValFirst(mem[at + 3], []);
    assert Val([]) == 0;
  }

  lemma ValFirst(x: byte, s: seq<byte>)
    ensures Val([x] + s) == x as nat + 0x100 * Val(s)
  {
    assert ([x] + s)[1..] == s;
  }

  /** At pc stand the opcode, the code of register `d` and an operand of value `b`: mode 0 and a register's
      code, or mode 1 and a constant. The next instruction is at `next`. */
  ghost predicate Decodes(vm: Vm, opcode: byte, d: nat, b: nat, next: nat) {
    && Sound(vm) && vm.running && vm.pc + 4 <= vm.codeSize
    && vm.mem[vm.pc] == opcode && Names(vm.mem[vm.pc + 1], d)
    && (|| (vm.mem[vm.pc + 2] == 0 && next == vm.pc + 4
            && exists r :: 0 <= r < 16 && Names(vm.mem[vm.pc + 3], r) && b == vm.regs[r])
        || (vm.mem[vm.pc + 2] == 1 && next == vm.pc + 7 && next <= vm.codeSize && b == Constant(vm.mem, vm.pc + 3)))
  }

  /** The machine with `v` in register `d`, all else unchanged, and control at `next`. */
  function Sets(vm: Vm, next: nat, d: nat, v: nat): Vm
    requires d < |vm.regs|
  {
    vm.(pc := next, regs := vm.regs[d := v])
  }

  lemma DecodedStep(vm: Vm, alu: Alu, d: nat, b: nat, next: nat, sys: nat)
    requires Decodes(vm, AluOpcode(alu), d, b, next)
    ensures Sound(vm) && vm.running && d < 16 && b < U64_SIZE && vm.regs[d] < U64_SIZE
    ensures Step(vm, sys) == Apply(vm.(pc := next), alu, d, b)
  {
    hide Val, AluOpcode, AluOf, Constant, StepTwo, Step, Apply, Names;
    if vm.mem[vm.pc + 2] == 1 { ConstantIsVal(vm.mem, vm.pc + 3); }
    FirstByte(vm, alu, sys);
    OperandRead(vm, alu);
    SameRegister(vm, vm.mem[vm.pc + 1], d);
    if r :| 0 <= r < 16 && Names(vm.mem[vm.pc + 3], r) && b == vm.regs[r] && vm.mem[vm.pc + 2] == 0 {
      SameRegister(vm, vm.mem[vm.pc + 3], r);
    }
    ApplyNamed(vm.(pc := next), alu, vm.mem[vm.pc + 1], d, b);
  }

  lemma FirstByte(vm: Vm, alu: Alu, sys: nat)
    requires Sound(vm) && vm.running && vm.pc < vm.codeSize && vm.mem[vm.pc] == AluOpcode(alu)
    ensures Step(vm, sys) == StepTwo(vm.(pc := vm.pc + 1), alu)
  {
    hide StepTwo;
    DecodedAlu(alu);
  }

  lemma DecodedAlu(alu: Alu)
    ensures AluOf(AluOpcode(alu)).Some? && AluOf(AluOpcode(alu)).value == alu
  {
  }

  lemma OperandRead(vm: Vm, alu: Alu)
    requires Sound(vm) && vm.pc + 4 <= vm.codeSize
    ensures var m := vm.(pc := vm.pc + 1);
            && (vm.mem[vm.pc + 2] == 0 ==>
                  StepTwo(m, alu) == Apply(vm.(pc := vm.pc + 4), alu, vm.mem[vm.pc + 1], GetReg(vm, vm.mem[vm.pc + 3])))
            && (vm.mem[vm.pc + 2] == 1 && vm.pc + 7 <= vm.codeSize ==>
                  StepTwo(m, alu) == Apply(vm.(pc := vm.pc + 7), alu, vm.mem[vm.pc + 1], Val(vm.mem[vm.pc + 3..vm.pc + 7])))
  {
    hide Apply, Val;
  }

  lemma SameRegister(vm: Vm, code: byte, d: nat)
    requires Sound(vm) && Names(code, d)
    ensures d < 16 && RegIndex(code) == d
  {
  }

  lemma ApplyNamed(vm: Vm, alu: Alu, code: byte, d: nat, b: nat)
    requires Sound(vm) && d < 16 && RegIndex(code) == d
    ensures Apply(vm, alu, code, b) == Apply(vm, alu, d, b)
  {
  }

  // ---- Arithmetic ----

  /** MV copies its operand. */
  lemma MoveMeans(vm: Vm, d: nat, b: nat, next: nat, sys: nat)
    requires Decodes(vm, 0x01, d, b, next)
    ensures d < 16 && Step(vm, sys) == Sets(vm, next, d, b)
  {
    hide Step, Decodes, Has;
    DecodedStep(vm, Mv, d, b, next, sys);
  }

  /** ADD adds, and drops the carry out of 64 bits. */
  lemma AddMeans(vm: Vm, d: nat, b: nat, next: nat, sys: nat)
    requires Decodes(vm, 0x02, d, b, next)
    ensures d < 16
    ensures var sum := vm.regs[d] + b;
            Step(vm, sys) == Sets(vm, next, d, if sum < 0x1_0000_0000_0000_0000 then sum else sum - 0x1_0000_0000_0000_0000)
  {
    hide Step, Decodes, Has;
    DecodedStep(vm, Add, d, b, next, sys);
    AddWraps(vm.regs[d], b);
  }

  /** SUB subtracts, and borrows 2^64 when the operand is larger. */
  lemma SubMeans(vm: Vm, d: nat, b: nat, next: nat, sys: nat)
    requires Decodes(vm, 0x03, d, b, next)
    ensures d < 16
    ensures var a := vm.regs[d];
            Step(vm, sys) == Sets(vm, next, d, if a >= b then a - b else a + 0x1_0000_0000_0000_0000 - b)
  {
    hide Step, Decodes, Has;
    DecodedStep(vm, Sub, d, b, next, sys);
    Difference(vm.regs[d], b);
  }

  /** MUL leaves the low 64 bits of the product: the product itself when it fits. */
  lemma MulMeans(vm: Vm, d: nat, b: nat, next: nat, sys: nat) returns (low: nat, high: nat)
    requires Decodes(vm, 0x04, d, b, next)
    ensures d < 16 && Step(vm, sys) == Sets(vm, next, d, low)
    ensures low < 0x1_0000_0000_0000_0000 && vm.regs[d] * b == high * 0x1_0000_0000_0000_0000 + low
    ensures vm.regs[d] * b < 0x1_0000_0000_0000_0000 ==> low == vm.regs[d] * b
  {
    hide Step, Decodes;
    DecodedStep(vm, Mul, d, b, next, sys);
    low, high := MulParts(vm.(pc := next), d, b);
  }

  lemma MulParts(vm: Vm, d: nat, b: nat) returns (low: nat, high: nat)
    requires Sound(vm) && d < 16
    ensures Apply(vm, Mul, d, b) == vm.(regs := vm.regs[d := low])
    ensures low < U64_SIZE && vm.regs[d] * b == high * U64_SIZE + low
    ensures vm.regs[d] * b < U64_SIZE ==> low == vm.regs[d] * b
  {
    low, high := vm.regs[d] * b % U64_SIZE, vm.regs[d] * b / U64_SIZE;
    Parts(vm.regs[d] * b);
  }

  lemma Parts(p: nat)
    ensures p == p / U64_SIZE * U64_SIZE + p % U64_SIZE
    ensures p < U64_SIZE ==> p % U64_SIZE == p
  {
  }

  /** DIV leaves the quotient, and stops the machine on a zero divisor. */
  lemma DivMeans(vm: Vm, d: nat, b: nat, next: nat, sys: nat) returns (q: nat)
    requires Decodes(vm, 0x05, d, b, next)
    ensures d < 16
    ensures b != 0 ==> Step(vm, sys) == Sets(vm, next, d, q) && q * b <= vm.regs[d] < q * b + b
    ensures b == 0 ==> Step(vm, sys) == vm.(pc := next, running := false)
  {
    hide Step, Decodes, Has;
    DecodedStep(vm, Div, d, b, next, sys);
    q := 0;
    if b != 0 {
      q := vm.regs[d] / b;
      DivUnique(vm.regs[d], b, q);
    }
  }

  // ---- Comparing and jumping ----

  /** The signed number a 64-bit word stands for. */
  function SignedWord(a: nat): int {
    if a < 0x8000_0000_0000_0000 then a else a - 0x1_0000_0000_0000_0000
  }

  /** A CMP and the jump behind it: JE and JNE decide by the operands in the order written, always rightly,
      and the ordering jumps rightly exactly when the signed difference fits 64 bits. */
  lemma CompareThenJump(vm: Vm, d: nat, b: nat, next: nat, sys: nat, sys': nat) returns (taken: bool)
    requires Decodes(vm, 0x10, d, b, next) && next + 5 <= vm.codeSize && 0x06 <= vm.mem[next] <= 0x0C && sys < U64_SIZE
    ensures d < 16 && Sound(Step(vm, sys))
    ensures var a := vm.regs[d];
            var wrapped := if a >= b then a - b else a + 0x1_0000_0000_0000_0000 - b;
            Step(vm, sys) == vm.(pc := next, flags := if wrapped == 0 then 1 else if wrapped >= 0x8000_0000_0000_0000 then 6 else 8)
    ensures var m := Step(Step(vm, sys), sys');
            m == vm.(pc := if taken then Constant(vm.mem, next + 1) else next + 5, flags := m.flags)
    ensures var j, a := vm.mem[next], vm.regs[d];
            var diff := SignedWord(a) - SignedWord(b);
            var fits := -0x8000_0000_0000_0000 <= diff < 0x8000_0000_0000_0000;
            && (j == 0x06 ==> taken)
            && (j == 0x07 ==> (taken <==> a == b))
            && (j == 0x08 ==> (taken <==> a != b))
            && (j == 0x09 ==> ((taken <==> SignedWord(a) < SignedWord(b)) <==> fits))
            && (j == 0x0A ==> ((taken <==> SignedWord(a) > SignedWord(b)) <==> fits))
            && (j == 0x0B ==> ((taken <==> SignedWord(a) <= SignedWord(b)) <==> fits))
            && (j == 0x0C ==> ((taken <==> SignedWord(a) >= SignedWord(b)) <==> fits))
  {
    hide Step, Decodes, Has, Constant, Taken, Flags, CondOf;
    DecodedStep(vm, Cmp, d, b, next, sys);
    FlagBits(vm.regs[d], b);
    var m := vm.(pc := next, flags := Flags(vm.regs[d], b));
    assert Step(vm, sys) == m;
    JumpCodes();
    JumpTaken(m, sys');
    taken := Taken(CondOf(m.mem[next]).value, m.flags);
    CompareMeans(vm.regs[d], b);
  }

  lemma FlagBits(a: nat, b: nat)
    requires a < U64_SIZE && b < U64_SIZE
    ensures var wrapped := if a >= b then a - b else a + U64_SIZE - b;
            Flags(a, b) == if wrapped == 0 then 1 else if wrapped >= 0x8000_0000_0000_0000 then 6 else 8
  {
  }

  lemma JumpTaken(vm: Vm, sys: nat)
    requires Sound(vm) && vm.running && vm.pc + 5 <= vm.codeSize && CondOf(vm.mem[vm.pc]).Some?
    ensures Step(vm, sys)
            == vm.(pc := if Taken(CondOf(vm.mem[vm.pc]).value, vm.flags) then Constant(vm.mem, vm.pc + 1) else vm.pc + 5)
  {
    hide Taken, Val, Constant, AluOf, CondOf, StepTwo, PushWord, PopWord;
    ConstantIsVal(vm.mem, vm.pc + 1);
    NoAlu(vm.mem[vm.pc]);
  }

  lemma NoAlu(opcode: byte)
    requires CondOf(opcode).Some?
    ensures AluOf(opcode) == None
  {
  }

  lemma JumpCodes()
    ensures forall j: byte :: 0x06 <= j <= 0x0C ==> CondOf(j).Some?
    ensures CondOf(0x06) == Some(Always) && CondOf(0x07) == Some(Equal) && CondOf(0x08) == Some(NotEqual)
    ensures CondOf(0x09) == Some(Less) && CondOf(0x0A) == Some(Greater)
    ensures CondOf(0x0B) == Some(LessEqual) && CondOf(0x0C) == Some(GreaterEqual)
    ensures forall flags :: Taken(Always, flags)
  {
  }

  // ---- The stack and the rest ----

  /** The `i`-th byte of a word, lowest first. */
  function Digit(v: nat, i: nat): nat {
    if i == 0 then v % 0x100 else Digit(v / 0x100, i - 1)
  }

  lemma {:induction false} DigitsOfLE(n: nat, v: nat, i: nat)
    requires i < n
    ensures LE(n, v)[i] == Digit(v, i)
    decreases n
  {
    if i > 0 { DigitsOfLE(n - 1, v / 0x100, i - 1); }
  }

  lemma {:induction false} DigitsOfVal(s: seq<byte>, i: nat)
    requires i < |s|
    ensures s[i] == Digit(Val(s), i)
    decreases |s|
  {
    assert Val(s) % 0x100 == s[0] && Val(s) / 0x100 == Val(s[1..]);
    if i > 0 { DigitsOfVal(s[1..], i - 1); }
  }

  /** The eight bytes at `at` are those of `v`, lowest first. */
  ghost predicate WordAt(mem: seq<byte>, at: nat, v: nat) {
    at + 8 <= |mem| && forall i :: 0 <= i < 8 ==> mem[at + i] == Digit(v, i)
  }

  /** `v` has been pushed: rsp, register 4, is down by eight, the word is there, and no other byte changed. */
  ghost predicate Pushed<P(!new)>(vm: Machine<P>, vm': Machine<P>, next: P, v: nat)
    requires |vm.regs| == 16
  {
    vm.regs[4] >= 8 &&
    var sp := vm.regs[4] - 8;
    && vm' == vm.(pc := next, regs := vm.regs[4 := sp], mem := vm'.mem)
    && |vm'.mem| == |vm.mem| && WordAt(vm'.mem, sp, v)
    && forall k :: 0 <= k < |vm.mem| && !(sp <= k < sp + 8) ==> vm'.mem[k] == vm.mem[k]
  }

  /** There is room for another word above the program. */
  predicate HasRoom<P>(vm: Machine<P>)
    requires |vm.regs| == 16
  {
    vm.codeSize + vm.dataSize + 8 <= vm.regs[4] <= |vm.mem|
  }

  lemma PushedWord<P(!new)>(vm: Machine<P>, v: nat)
    requires Sound(vm) && HasRoom(vm)
    ensures Pushed(vm, PushWord(vm, v), vm.pc, v) && PushWord(vm, v).pc == vm.pc
  {
    var sp := vm.regs[4];
    assert (sp - 8) % U64_SIZE == sp - 8;
    forall i | 0 <= i < 8
      ensures LE(8, v)[i] == Digit(v, i)
    {
      DigitsOfLE(8, v, i);
    }
    hide LE, Digit;
  }

  /** PUSH stores the register's eight bytes below the stack; CALL stores the address behind it and jumps. */
  lemma PushMeans(vm: Vm, r: nat, sys: nat)
    requires Sound(vm) && vm.running && HasRoom(vm) && vm.pc < vm.codeSize
    ensures vm.mem[vm.pc] == 0x20 && vm.pc + 2 <= vm.codeSize && Names(vm.mem[vm.pc + 1], r) ==>
              r < 16 && Pushed(vm, Step(vm, sys), vm.pc + 2, vm.regs[r])
    ensures vm.mem[vm.pc] == 0x30 && vm.pc + 5 <= vm.codeSize ==>
              Pushed(vm, Step(vm, sys), Constant(vm.mem, vm.pc + 1), vm.pc + 5)
  {
    hide PushWord, Pushed, Val, Constant;
    if vm.mem[vm.pc] == 0x20 && vm.pc + 2 <= vm.codeSize && Names(vm.mem[vm.pc + 1], r) {
      PushedWord(vm.(pc := vm.pc + 2), vm.regs[r]);
      assert Step(vm, sys) == PushWord(vm.(pc := vm.pc + 2), vm.regs[r]);
      PushedFrom(vm, vm.pc + 2, Step(vm, sys), vm.pc + 2, vm.regs[r]);
    }
    if vm.mem[vm.pc] == 0x30 && vm.pc + 5 <= vm.codeSize {
      ConstantIsVal(vm.mem, vm.pc + 1);
      PushedWord(vm.(pc := vm.pc + 5), vm.pc + 5);
      var m := PushWord(vm.(pc := vm.pc + 5), vm.pc + 5);
      assert Step(vm, sys) == m.(pc := Constant(vm.mem, vm.pc + 1));
      PushedFrom(vm, vm.pc + 5, m, Constant(vm.mem, vm.pc + 1), vm.pc + 5);
    }
  }

  lemma PushedFrom<P(!new)>(vm: Machine<P>, from: P, m: Machine<P>, next: P, v: nat)
    requires |vm.regs| == 16 && Pushed(vm.(pc := from), m, from, v)
    ensures Pushed(vm, m.(pc := next), next, v)
  {
    hide Digit;
  }

  /** POP loads the eight bytes at rsp, and RET continues at the lower four of them. From the topmost word
      of memory, and from an empty stack, either stops the machine. */
  lemma PopMeans(vm: Vm, r: nat, sys: nat) returns (v: nat)
    requires Sound(vm) && vm.running && vm.pc < vm.codeSize
    ensures vm.regs[4] < |vm.mem| - 8 ==> WordAt(vm.mem, vm.regs[4], v)
    ensures vm.mem[vm.pc] == 0x21 && vm.pc + 2 <= vm.codeSize && Names(vm.mem[vm.pc + 1], r) ==>
              r < 16 && if vm.regs[4] < |vm.mem| - 8
                        then Step(vm, sys) == vm.(pc := vm.pc + 2, regs := vm.regs[4 := vm.regs[4] + 8][r := v])
                        else !Step(vm, sys).running
    ensures vm.mem[vm.pc] == 0x31 ==>
              if vm.regs[4] < |vm.mem| - 8
              then Step(vm, sys) == vm.(pc := Constant(vm.mem, vm.regs[4]), regs := vm.regs[4 := vm.regs[4] + 8])
              else !Step(vm, sys).running
  {
    var sp := vm.regs[4];
    v := 0;
    if sp < |vm.mem| - 8 {
      v := Val(vm.mem[sp..sp + 8]);
      WordIs(vm.mem, sp);
      LowHalf(vm.mem, sp);
    }
    hide Val, Constant, WordAt, AluOf, CondOf;
    if vm.mem[vm.pc] in {0x21, 0x31} { NotAlu(vm.mem[vm.pc]); }
  }

  lemma NotAlu(opcode: byte)
    requires opcode in {0x21, 0x31}
    ensures AluOf(opcode) == None && CondOf(opcode) == None
  {
  }

  lemma WordIs(mem: seq<byte>, at: nat)
    requires at + 8 <= |mem|
    ensures WordAt(mem, at, Val(mem[at..at + 8]))
  {
    var s := mem[at..at + 8];
    forall i | 0 <= i < 8
      ensures mem[at + i] == Digit(Val(s), i)
    {
      DigitsOfVal(s, i);
    }
  }

  lemma LowHalf(mem: seq<byte>, at: nat)
    requires at + 8 <= |mem|
    ensures Val(mem[at..at + 8]) % U32_SIZE == Constant(mem, at)
  {
    ConstantIsVal(mem, at);
    var s := mem[at..at + 8];
    assert s == mem[at..at + 4] + mem[at + 4..at + 8];
    ValJoin(mem[at..at + 4], mem[at + 4..at + 8]);
    Pow4();
    hide Constant, Val;
    LowPart(Val(mem[at + 4..at + 8]), Constant(mem, at));
  }

  lemma {:induction false} ValJoin(a: seq<byte>, b: seq<byte>)
    ensures Val(a + b) == Val(a) + Pow256(|a|) * Val(b)
    decreases |a|
  {
    if a == [] {
      assert a + b == b;
    } else {
      assert a + b == [a[0]] + (a[1..] + b) && a == [a[0]] + a[1..];
      ValJoin(a[1..], b);
      ValFirst(a[0], a[1..] + b);
      ValFirst(a[0], a[1..]);
      var p, v := Pow256(|a| - 1), Val(b);
      assert Pow256(|a|) == 0x100 * p;
      hide Val, Pow256;
      Regroup(p, v);
    }
  }

  lemma Regroup(p: nat, v: nat)
    ensures 0x100 * (p * v) == (0x100 * p) * v
  {
  }

  lemma LowPart(high: nat, low: nat)
    requires low < U32_SIZE
    ensures (low + U32_SIZE * high) % U32_SIZE == low
  {
  }

  /** A system call changes rax alone; 0x90 does nothing; any other byte stops the machine. */
  lemma OthersMean(vm: Vm, sys: nat)
    requires Sound(vm) && vm.running && vm.pc < vm.codeSize
    ensures vm.mem[vm.pc] == 0x50 && vm.pc + 2 <= vm.codeSize ==>
              Step(vm, sys) == vm.(pc := vm.pc + 2, regs := vm.regs[0 := sys])
    ensures vm.mem[vm.pc] == 0x90 ==> Step(vm, sys) == vm.(pc := vm.pc + 1)
    ensures !(0x01 <= vm.mem[vm.pc] <= 0x0C) && vm.mem[vm.pc] !in {0x10, 0x20, 0x21, 0x30, 0x31, 0x50, 0x90} ==>
              Step(vm, sys) == vm.(pc := vm.pc + 1, running := false)
  {
  }

  /** A two-operand instruction in a mode other than 0 and 1 stops the machine when it is MV; the others are
      skipped with their three bytes. */
  lemma OtherModes(vm: Vm, sys: nat)
    requires Sound(vm) && vm.running && vm.pc + 3 <= vm.codeSize
    requires vm.mem[vm.pc] in {0x01, 0x02, 0x03, 0x04, 0x05, 0x10} && vm.mem[vm.pc + 2] > 1
    ensures Step(vm, sys) == vm.(pc := vm.pc + 3, running := vm.mem[vm.pc] != 0x01)
  {
    var alu := AluOf(vm.mem[vm.pc]).value;
    assert alu == Mv <==> vm.mem[vm.pc] == 0x01;
    hide AluOf, CondOf, Apply, ReadU32, StepJump, PushWord, PopWord;
  }

  /** How many bytes the instruction at pc takes; the mode byte decides for two operands. */
  function Length(mem: seq<byte>, pc: nat): nat
    requires pc < |mem|
  {
    var op := mem[pc];
    if op in {0x01, 0x02, 0x03, 0x04, 0x05, 0x10} then
      (if pc + 2 >= |mem| || mem[pc + 2] > 1 then 3 else if mem[pc + 2] == 0 then 4 else 7)
    else if 0x06 <= op <= 0x0C || op == 0x30 then 5
    else if op == 0x20 || op == 0x21 || op == 0x50 then 2
    else 1
  }

  /** An instruction cut off by the end of the code stops the machine. */
  lemma CutOffStops(vm: Vm, sys: nat)
    requires Sound(vm) && vm.pc < vm.codeSize < vm.pc + Length(vm.mem, vm.pc)
    ensures !Step(vm, sys).running
  {
    if vm.running && AluOf(vm.mem[vm.pc]).Some? {
      CutOffTwo(vm, sys);
    }
  }

  lemma CutOffTwo(vm: Vm, sys: nat)
    requires Sound(vm) && vm.running && vm.pc < vm.codeSize < vm.pc + Length(vm.mem, vm.pc) && AluOf(vm.mem[vm.pc]).Some?
    ensures !Step(vm, sys).running
  {
    var alu := AluOf(vm.mem[vm.pc]).value;
    assert vm.mem[vm.pc] == AluOpcode(alu);
    hide Step, StepTwo, AluOf, AluOpcode;
    FirstByte(vm, alu, sys);
    ShortTwo(vm.(pc := vm.pc + 1), alu);
  }

  lemma ShortTwo(vm: Vm, alu: Alu)
    requires Sound(vm) && vm.running && vm.pc <= vm.codeSize
    requires vm.pc + 1 < vm.codeSize ==>
               (vm.mem[vm.pc + 1] == 0 && vm.codeSize < vm.pc + 3) || (vm.mem[vm.pc + 1] == 1 && vm.codeSize < vm.pc + 6)
    ensures !StepTwo(vm, alu).running
  {
    hide Result, Flags, Val, GetReg;
  }

  /** Past the code the machine stops. */
  lemma PastCodeStops(vm: Vm, sys: nat)
    requires Sound(vm) && vm.pc >= vm.codeSize
    ensures !Step(vm, sys).running
  {
  }

  // ---- The same, line by line ----

  /** The value of an operand as written: a register, a number cut to 32 bits, or a label's address. */
  ghost predicate Operates(s: Sym, env: map<string, nat>, src: Operand, b: nat)
    requires |s.regs| == 16
  {
    match src
    case Register(r) => r < 16 && b == s.regs[r]
    case Number(n) => 0 <= b < 0x1_0000_0000 && (n - b) % 0x1_0000_0000 == 0
    case Symbol(l) => l in env && env[l] < 0x1_0000_0000 && b == env[l]
  }

  lemma OperandIs(s: Sym, env: map<string, nat>, src: Operand, b: nat)
    requires Sound(s) && Operates(s, env, src, b)
    ensures Second(s, env, src) == b < U64_SIZE
  {
    if src.Number? { CutTo32(src.n, b); }
  }

  lemma CutTo32(n: int, b: nat)
    requires b < U32_SIZE && (n - b) % U32_SIZE == 0
    ensures n % U32_SIZE == b
  {
    assert n == (n - b) / U32_SIZE * U32_SIZE + b;
  }

  /** A two-operand line writes its first operand from the second, in this order, and nothing else. */
  lemma LineMeans(instrs: seq<Instr>, env: map<string, nat>, s: Sym, k: nat, b: nat, sys: nat) returns (v: nat)
    requires Sound(s) && k < |instrs| && instrs[k].Two? && instrs[k].dst < 16 && Operates(s, env, instrs[k].src, b)
    ensures var alu, a := instrs[k].alu, s.regs[instrs[k].dst];
            && (alu != Cmp && (alu == Div ==> b != 0) ==>
                  Exec(instrs, env, s, k, sys) == s.(pc := After(instrs, k), regs := s.regs[instrs[k].dst := v]))
            && (alu == Div && b == 0 ==> Exec(instrs, env, s, k, sys) == s.(pc := After(instrs, k), running := false))
            && (alu == Mv ==> v == b)
            && (alu == Add ==> v == if a + b < 0x1_0000_0000_0000_0000 then a + b else a + b - 0x1_0000_0000_0000_0000)
            && (alu == Sub ==> v == if a >= b then a - b else a + 0x1_0000_0000_0000_0000 - b)
            && (alu == Mul && a * b < 0x1_0000_0000_0000_0000 ==> v == a * b)
            && (alu == Div && b != 0 ==> v * b <= a < v * b + b)
  {
    var alu, d := instrs[k].alu, instrs[k].dst;
    var next := s.(pc := After(instrs, k));
    OperandIs(s, env, instrs[k].src, b);
    assert Exec(instrs, env, s, k, sys) == Apply(next, alu, d, b);
    hide Exec, Second, Operates, After, Apply;
    v := ApplyMeans(next, alu, d, b);
  }

  lemma ApplyMeans(s: Sym, alu: Alu, d: nat, b: nat) returns (v: nat)
    requires Sound(s) && d < 16 && b < U64_SIZE
    ensures var a := s.regs[d];
            && (alu != Cmp && (alu == Div ==> b != 0) ==> Apply(s, alu, d, b) == s.(regs := s.regs[d := v]))
            && (alu == Div && b == 0 ==> Apply(s, alu, d, b) == s.(running := false))
            && (alu == Mv ==> v == b)
            && (alu == Add ==> v == if a + b < U64_SIZE then a + b else a + b - U64_SIZE)
            && (alu == Sub ==> v == if a >= b then a - b else a + U64_SIZE - b)
            && (alu == Mul && a * b < U64_SIZE ==> v == a * b)
            && (alu == Div && b != 0 ==> v * b <= a < v * b + b)
  {
    var a := s.regs[d];
    if alu != Cmp && (alu == Div ==> b != 0) {
      ResultMeans(alu, a, b);
      v := Result(alu, a, b);
      hide Result;
    } else {
      v := 0;
    }
  }

  lemma ResultMeans(alu: Alu, a: nat, b: nat)
    requires alu != Cmp && (alu == Div ==> b != 0) && a < U64_SIZE && b < U64_SIZE
    ensures alu == Mv ==> Result(alu, a, b) == b
    ensures alu == Add ==> Result(alu, a, b) == if a + b < U64_SIZE then a + b else a + b - U64_SIZE
    ensures alu == Sub ==> Result(alu, a, b) == if a >= b then a - b else a + U64_SIZE - b
    ensures alu == Mul && a * b < U64_SIZE ==> Result(alu, a, b) == a * b
    ensures alu == Div ==> Result(alu, a, b) * b <= a < Result(alu, a, b) * b + b
  {
    hide Result;
    match alu {
      case Mv => MoveResult(a, b);
      case Add => SumResult(a, b);
      case Sub => DifferenceResult(a, b);
      case Mul => ProductResult(a, b);
      case Div => QuotientResult(a, b);
    }
  }

  lemma MoveResult(a: nat, b: nat)
    ensures Result(Mv, a, b) == b
  {
  }

  lemma SumResult(a: nat, b: nat)
    requires a < U64_SIZE && b < U64_SIZE
    ensures Result(Add, a, b) == if a + b < U64_SIZE then a + b else a + b - U64_SIZE
  {
    AddWraps(a, b);
  }

  lemma DifferenceResult(a: nat, b: nat)
    requires a < U64_SIZE && b < U64_SIZE
    ensures Result(Sub, a, b) == if a >= b then a - b else a + U64_SIZE - b
  {
    Difference(a, b);
  }

  lemma ProductResult(a: nat, b: nat)
    ensures a * b < U64_SIZE ==> Result(Mul, a, b) == a * b
  {
    Parts(a * b);
  }

  lemma QuotientResult(a: nat, b: nat)
    requires b != 0
    ensures Result(Div, a, b) * b <= a < Result(Div, a, b) * b + b
  {
    DivUnique(a, b, a / b);
  }

  /** A PUSH line. */
  lemma PushLineMeans(instrs: seq<Instr>, env: map<string, nat>, s: Sym, k: nat, r: byte, sys: nat)
    requires Sound(s) && k < |instrs| && instrs[k] == Instr.Push(r) && r < 16 && HasRoom(s)
    ensures Pushed(s, Exec(instrs, env, s, k, sys), After(instrs, k), s.regs[r])
  {
    var next := s.(pc := After(instrs, k));
    PushedWord(next, s.regs[r]);
    hide PushWord, Pushed, After;
    PushedFrom(s, next.pc, PushWord(next, s.regs[r]), next.pc, s.regs[r]);
  }

  /** A CALL line pushes the offset of the line behind it. */
  lemma CallLineMeans(instrs: seq<Instr>, env: map<string, nat>, s: Sym, k: nat, l: string, sys: nat)
    requires Sound(s) && k < |instrs| && instrs[k] == Instr.Call(l) && HasRoom(s) && l in env && env[l] < 0x1_0000_0000
    ensures Pushed(s, Exec(instrs, env, s, k, sys), PcOf(instrs, env[l]), AddrOf(instrs, After(instrs, k)))
  {
    var next := s.(pc := After(instrs, k));
    var v := AddrOf(instrs, next.pc);
    PushedWord(next, v);
    hide PushWord, Pushed, After, PcOf, Off, AddrOf, Apply, Second, HasRoom;
    PushedFrom(s, next.pc, PushWord(next, v), PcOf(instrs, env[l]), v);
  }

  /** A POP line. */
  lemma PopLineMeans(instrs: seq<Instr>, env: map<string, nat>, s: Sym, k: nat, r: byte, sys: nat) returns (v: nat)
    requires Sound(s) && k < |instrs| && instrs[k] == Instr.Pop(r) && r < 16 && s.regs[4] < |s.mem| - 8
    ensures WordAt(s.mem, s.regs[4], v)
    ensures Exec(instrs, env, s, k, sys) == s.(pc := After(instrs, k), regs := s.regs[4 := s.regs[4] + 8][r := v])
  {
    WordIs(s.mem, s.regs[4]);
    hide Val, WordAt, After;
    v := Val(s.mem[s.regs[4]..s.regs[4] + 8]);
  }

  /** A CMP line and the jump line behind it, for the jumps a program writes: after CMP of `a` with `b` the
      condition is about `a` and `b` in this order. */
  lemma CompareLines(instrs: seq<Instr>, env: map<string, nat>, s: Sym, k: nat, b: nat, sys: nat, sys': nat) returns (taken: bool)
    requires Sound(s) && k + 1 < |instrs| && instrs[k].Two? && instrs[k].alu == Cmp && instrs[k].dst < 16
    requires Operates(s, env, instrs[k].src, b)
    requires instrs[k + 1].Jump? && instrs[k + 1].target in env && env[instrs[k + 1].target] < 0x1_0000_0000
    ensures Sound(Exec(instrs, env, s, k, sys)) && Exec(instrs, env, s, k, sys).pc == At(k + 1)
    ensures var m := Exec(instrs, env, Exec(instrs, env, s, k, sys), k + 1, sys');
            m == s.(pc := if taken then PcOf(instrs, env[instrs[k + 1].target]) else After(instrs, k + 1), flags := m.flags)
    ensures var c, a := instrs[k + 1].cond, s.regs[instrs[k].dst];
            var diff := SignedWord(a) - SignedWord(b);
            var fits := -0x8000_0000_0000_0000 <= diff < 0x8000_0000_0000_0000;
            && (c == Always ==> taken)
            && (c == Equal ==> (taken <==> a == b))
            && (c == NotEqual ==> (taken <==> a != b))
            && (c == Less ==> ((taken <==> SignedWord(a) < SignedWord(b)) <==> fits))
            && (c == Greater ==> ((taken <==> SignedWord(a) > SignedWord(b)) <==> fits))
            && (c == LessEqual ==> ((taken <==> SignedWord(a) <= SignedWord(b)) <==> fits))
            && (c == GreaterEqual ==> ((taken <==> SignedWord(a) >= SignedWord(b)) <==> fits))
  {
    hide Taken, Flags, Second, Operates, PcOf, Off;
    OperandIs(s, env, instrs[k].src, b);
    var a := s.regs[instrs[k].dst];
    var m := Exec(instrs, env, s, k, sys);
    assert m == s.(pc := At(k + 1), flags := Flags(a, b));
    taken := Taken(instrs[k + 1].cond, m.flags);
    CompareMeans(a, b);
    JumpCodes();
  }
}
