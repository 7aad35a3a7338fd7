/** The BEXE virtual machine: one instruction from bytes, loading an image, and runs. */
module BexeVm {
  import opened Options
  import opened Bytes
  import opened BexeCode

  const U64_SIZE: nat := 0x1_0000_0000_0000_0000
  const RAX: nat := 0
  const RSP: nat := 4
  const RBP: nat := 5
  const STACK: nat := 0x1_0000

  const FLAG_ZERO: nat := 1
  const FLAG_SIGN: nat := 2
  const FLAG_LESS: nat := 4
  const FLAG_GREATER: nat := 8

  /** The machine with a program counter of any kind: an address in the VM, a line of the program in the
      assembler's view. `wild` records a store outside the machine's memory, which stops the model. */
  datatype Machine<P> = Machine(pc: P, mem: seq<byte>, codeSize: nat, dataSize: nat, regs: seq<nat>, flags: nat,
                                running: bool, wild: bool)

  type Vm = Machine<nat>

  ghost predicate Sound<P>(m: Machine<P>) {
    && |m.regs| == 16 && (forall r :: 0 <= r < 16 ==> m.regs[r] < U64_SIZE)
    && m.codeSize + m.dataSize + STACK <= |m.mem| < U32_SIZE
  }

  /** Register codes above 15 mean r15. */
  function RegIndex(idx: nat): (i: nat)
    ensures i < 16
  {
    if idx < 16 then idx else 15
  }

  function GetReg<P>(m: Machine<P>, idx: nat): nat
    requires |m.regs| == 16
  {
    m.regs[RegIndex(idx)]
  }

  function SetReg<P>(m: Machine<P>, idx: nat, v: nat): (m': Machine<P>)
    requires |m.regs| == 16
    ensures |m'.regs| == 16
  {
    m.(regs := m.regs[RegIndex(idx) := v])
  }

  // ---- Stack ----

  function PushWord<P>(m: Machine<P>, v: nat): Machine<P>
    requires |m.regs| == 16
  {
    var sp := (m.regs[RSP] - 8) % U64_SIZE;
    var m' := SetReg(m, RSP, sp);
    if sp < m.codeSize + m.dataSize then m'.(running := false)
    else if sp + 8 > |m.mem| then m'.(running := false, wild := true)
    else m'.(mem := Patch(m.mem, sp, LE(8, v)))
  }

  function PopWord<P>(m: Machine<P>): (Machine<P>, nat)
    requires Sound(m)
  {
    var sp := m.regs[RSP];
    if sp >= |m.mem| - 8 then (m.(running := false), 0)
    else (SetReg(m, RSP, sp + 8), Val(m.mem[sp..sp + 8]))
  }

  // ---- Arithmetic ----

  /** The flags of a signed 64-bit difference. */
  function Flags(a: nat, b: nat): nat {
    var d := (a - b) % U64_SIZE;
    if d == 0 then FLAG_ZERO else if d >= U64_SIZE / 2 then FLAG_SIGN + FLAG_LESS else FLAG_GREATER
  }

  /** 64-bit arithmetic on two words. */
  function Result(alu: Alu, a: nat, b: nat): nat
    requires alu != Cmp && (alu == Div ==> b != 0)
  {
    match alu
    case Mv => b
    case Add => (a + b) % U64_SIZE
    case Sub => (a - b) % U64_SIZE
    case Mul => a * b % U64_SIZE
    case Div => a / b
  }

  /** The effect of a two-operand instruction whose second operand is `b`. */
  function Apply<P>(m: Machine<P>, alu: Alu, dst: nat, b: nat): Machine<P>
    requires |m.regs| == 16
  {
    var a := GetReg(m, dst);
    if alu == Cmp then m.(flags := Flags(a, b))
    else if alu == Div && b == 0 then m.(running := false)
    else SetReg(m, dst, Result(alu, a, b))
  }

  predicate Has(flags: nat, bit: nat)
    requires bit > 0
  {
    flags / bit % 2 == 1
  }

  predicate Taken(c: Cond, flags: nat) {
    match c
    case Always => true
    case Equal => Has(flags, FLAG_ZERO)
    case NotEqual => !Has(flags, FLAG_ZERO)
    case Less => Has(flags, FLAG_LESS)
    case Greater => Has(flags, FLAG_GREATER)
    case LessEqual => Has(flags, FLAG_ZERO) || Has(flags, FLAG_LESS)
    case GreaterEqual => Has(flags, FLAG_ZERO) || Has(flags, FLAG_GREATER)
  }

  // ---- What the arithmetic and the flags mean ----

  /** A 64-bit word as a signed number. */
  function Signed(a: nat): int {
    if a < U64_SIZE / 2 then a else a - U64_SIZE
  }

  predicate InRange(d: int) {
    -(U64_SIZE / 2) <= d < U64_SIZE / 2
  }

  /** After CMP the equality jumps always decide rightly; the ordering jumps decide the signed order of the
      operands exactly when their difference does not overflow 64 bits. */
  lemma CompareMeans(a: nat, b: nat)
    requires a < U64_SIZE && b < U64_SIZE
    ensures Taken(Equal, Flags(a, b)) <==> a == b
    ensures Taken(NotEqual, Flags(a, b)) <==> a != b
    ensures (Taken(Less, Flags(a, b)) <==> Signed(a) < Signed(b)) <==> InRange(Signed(a) - Signed(b))
    ensures (Taken(Greater, Flags(a, b)) <==> Signed(a) > Signed(b)) <==> InRange(Signed(a) - Signed(b))
    ensures (Taken(LessEqual, Flags(a, b)) <==> Signed(a) <= Signed(b)) <==> InRange(Signed(a) - Signed(b))
    ensures (Taken(GreaterEqual, Flags(a, b)) <==> Signed(a) >= Signed(b)) <==> InRange(Signed(a) - Signed(b))
  {
    Difference(a, b);
    FlagBits();
    hide Has;
  }

  lemma Difference(a: nat, b: nat)
    requires a < U64_SIZE && b < U64_SIZE
    ensures (a - b) % U64_SIZE == if a >= b then a - b else a - b + U64_SIZE
  {
  }

  lemma FlagBits()
    ensures Has(FLAG_ZERO, FLAG_ZERO) && !Has(FLAG_ZERO, FLAG_LESS) && !Has(FLAG_ZERO, FLAG_GREATER)
    ensures !Has(FLAG_SIGN + FLAG_LESS, FLAG_ZERO) && Has(FLAG_SIGN + FLAG_LESS, FLAG_LESS) && !Has(FLAG_SIGN + FLAG_LESS, FLAG_GREATER)
    ensures !Has(FLAG_GREATER, FLAG_ZERO) && !Has(FLAG_GREATER, FLAG_LESS) && Has(FLAG_GREATER, FLAG_GREATER)
  {
  }

  /** SUB undoes ADD on all words; DIV undoes MUL exactly when the product fits 64 bits. */
  lemma ArithmeticUndone(a: nat, b: nat)
    requires a < U64_SIZE && b < U64_SIZE
    ensures Result(Sub, Result(Add, a, b), b) == a
    ensures b > 0 ==> (Result(Div, Result(Mul, a, b), b) == a <==> a * b < U64_SIZE)
  {
    AddWraps(a, b);
    var s := Result(Add, a, b);
    Difference(s, b);
    if b > 0 { MulDiv(a, b); }
  }

  lemma AddWraps(a: nat, b: nat)
    requires a < U64_SIZE && b < U64_SIZE
    ensures (a + b) % U64_SIZE == if a + b < U64_SIZE then a + b else a + b - U64_SIZE
  {
  }

  lemma MulDiv(a: nat, b: nat)
    requires a < U64_SIZE && 0 < b < U64_SIZE
    ensures a * b % U64_SIZE / b == a <==> a * b < U64_SIZE
  {
    var p := a * b;
    var r := p % U64_SIZE;
    DivUnique(r, b, a);
    if p < U64_SIZE {
      assert r == p;
    } else {
      WrapsBelow(p, b);
    }
  }

  /** `r / b` is `a` just when `r` lies in the `a`-th stretch of length `b`. */
  lemma DivUnique(r: nat, b: nat, a: nat)
    requires b > 0
    ensures r / b == a <==> a * b <= r < a * b + b
  {
    var q := r / b;
    assert r == b * q + r % b;
    if q < a { MulAtMost(q + 1, a, b); }
    if a < q { MulAtMost(a + 1, q, b); }
  }

  lemma WrapsBelow(p: nat, b: nat)
    requires p >= U64_SIZE
    ensures p % U64_SIZE < p
  {
  }

  // ---- Fetching ----

  /** read_u8: stops the machine at the end of the code. */
  function ReadU8(vm: Vm): (r: (Vm, byte))
    requires Sound(vm)
    ensures r.0 == vm.(pc := r.0.pc, running := r.0.running)
  {
    if vm.pc >= vm.codeSize then (vm.(running := false), 0) else (vm.(pc := vm.pc + 1), vm.mem[vm.pc])
  }

  function ReadU32(vm: Vm): (r: (Vm, nat))
    requires Sound(vm)
    ensures r.0 == vm.(pc := r.0.pc, running := r.0.running)
  {
    if vm.pc + 4 > vm.codeSize then (vm.(running := false), 0)
    else (vm.(pc := vm.pc + 4), Val(vm.mem[vm.pc..vm.pc + 4]))
  }

  function AluOf(opcode: byte): Option<Alu> {
    if opcode == 0x01 then Some(Mv) else if opcode == 0x02 then Some(Add) else if opcode == 0x03 then Some(Sub)
    else if opcode == 0x04 then Some(Mul) else if opcode == 0x05 then Some(Div) else if opcode == 0x10 then Some(Cmp)
    else None
  }

  function CondOf(opcode: byte): Option<Cond> {
    if opcode == 0x06 then Some(Always) else if opcode == 0x07 then Some(Equal) else if opcode == 0x08 then Some(NotEqual)
    else if opcode == 0x09 then Some(Less) else if opcode == 0x0A then Some(Greater)
    else if opcode == 0x0B then Some(LessEqual) else if opcode == 0x0C then Some(GreaterEqual)
    else None
  }

  // ---- Execution ----

  /** A two-operand instruction after its opcode; modes other than 0 and 1 stop MV and are skipped by the
      rest. */
  function StepTwo(vm: Vm, alu: Alu): Vm
    requires Sound(vm)
  {
    var (vm1, dst) := ReadU8(vm);
    var (vm2, mode) := ReadU8(vm1);
    if mode == 0 then
      var (vm3, src) := ReadU8(vm2);
      Apply(vm3, alu, dst, GetReg(vm3, src))
    else if mode == 1 then
      var (vm3, imm) := ReadU32(vm2);
      Apply(vm3, alu, dst, imm)
    else if alu == Mv then vm2.(running := false)
    else vm2
  }

  function StepJump(vm: Vm, c: Cond): Vm
    requires Sound(vm)
  {
    var (vm1, addr) := ReadU32(vm);
    if Taken(c, vm1.flags) then vm1.(pc := addr) else vm1
  }

  /** execute_instruction; `sys` is what the system call handler would return. */
  function Step(vm: Vm, sys: nat): Vm
    requires Sound(vm)
  {
    if !vm.running then vm
    else
      var (vm1, opcode) := ReadU8(vm);
      if AluOf(opcode).Some? then StepTwo(vm1, AluOf(opcode).value)
      else if CondOf(opcode).Some? then StepJump(vm1, CondOf(opcode).value)
      else if opcode == 0x20 then
        var (vm2, reg) := ReadU8(vm1);
        PushWord(vm2, GetReg(vm2, reg))
      else if opcode == 0x21 then
        var (vm2, reg) := ReadU8(vm1);
        var (vm3, v) := PopWord(vm2);
        SetReg(vm3, reg, v)
      else if opcode == 0x30 then
        var (vm2, addr) := ReadU32(vm1);
        PushWord(vm2, vm2.pc).(pc := addr)
      else if opcode == 0x31 then
        var (vm2, v) := PopWord(vm1);
        vm2.(pc := v % U32_SIZE)
      else if opcode == 0x50 then
        var (vm2, n) := ReadU8(vm1);
        SetReg(vm2, RAX, sys)
      else if opcode == 0x90 then vm1
      else vm1.(running := false)
  }

  // ---- What every step keeps ----

  lemma PushKeeps<P>(m: Machine<P>, v: nat)
    requires Sound(m)
    ensures Sound(PushWord(m, v)) && PushWord(m, v).codeSize == m.codeSize && PushWord(m, v).dataSize == m.dataSize
    ensures |PushWord(m, v).mem| == |m.mem|
    ensures PushWord(m, v).mem[..m.codeSize + m.dataSize] == m.mem[..m.codeSize + m.dataSize]
  {
  }

  lemma PopKeeps<P>(m: Machine<P>)
    requires Sound(m)
    ensures Sound(PopWord(m).0) && PopWord(m).0.mem == m.mem && PopWord(m).1 < U64_SIZE
    ensures PopWord(m).0.codeSize == m.codeSize && PopWord(m).0.dataSize == m.dataSize
  {
    Pow4();
    if m.regs[RSP] < |m.mem| - 8 {
      ValBound(m.mem[m.regs[RSP]..m.regs[RSP] + 8]);
    }
  }

  lemma ApplyKeeps<P>(m: Machine<P>, alu: Alu, dst: nat, b: nat)
    requires Sound(m) && b < U64_SIZE
    ensures Sound(Apply(m, alu, dst, b)) && Apply(m, alu, dst, b).mem == m.mem
    ensures Apply(m, alu, dst, b).codeSize == m.codeSize && Apply(m, alu, dst, b).dataSize == m.dataSize
  {
    if alu != Cmp && (alu == Div ==> b != 0) { ResultBound(alu, GetReg(m, dst), b); }
  }

  lemma ResultBound(alu: Alu, a: nat, b: nat)
    requires alu != Cmp && (alu == Div ==> b != 0) && a < U64_SIZE && b < U64_SIZE
    ensures Result(alu, a, b) < U64_SIZE
  {
    if alu == Div { Quotient(a, b); }
  }

  lemma Quotient(a: nat, b: nat)
    requires b > 0
    ensures 0 <= a / b <= a
  {
    var q := a / b;
    assert a == b * q + a % b;
    MulAtMost(1, b, q);
  }

  ghost predicate SameImage(m: Vm, m': Vm) {
    && m'.codeSize == m.codeSize && m'.dataSize == m.dataSize && |m'.mem| == |m.mem|
    && m.codeSize + m.dataSize <= |m.mem|
    && m'.mem[..m.codeSize + m.dataSize] == m.mem[..m.codeSize + m.dataSize]
  }

  /** No instruction, whatever bytes it is decoded from, changes the code or the data section. */
  lemma StepKeepsImage(vm: Vm, sys: nat)
    requires Sound(vm) && sys < U64_SIZE
    ensures Sound(Step(vm, sys)) && SameImage(vm, Step(vm, sys))
  {
    hide ReadU8, ReadU32, StepTwo, PushWord, PopWord, StepJump, Taken, AluOf, CondOf;
    var (vm1, opcode) := ReadU8(vm);
    if vm.running {
      if AluOf(opcode).Some? {
        TwoKeeps(vm1, AluOf(opcode).value);
      } else if CondOf(opcode).Some? {
        JumpKeeps(vm1, CondOf(opcode).value);
      } else if opcode == 0x20 {
        var (vm2, reg) := ReadU8(vm1);
        PushKeeps(vm2, GetReg(vm2, reg));
      } else if opcode == 0x21 {
        PopKeeps(ReadU8(vm1).0);
      } else if opcode == 0x30 {
        PushKeeps(ReadU32(vm1).0, ReadU32(vm1).0.pc);
      } else if opcode == 0x31 {
        RetKeeps(vm1);
      } else if opcode == 0x50 {
        SetKeeps(ReadU8(vm1).0, RAX, sys);
      }
    }
  }

  lemma SetKeeps<P>(m: Machine<P>, idx: nat, v: nat)
    requires Sound(m) && v < U64_SIZE
    ensures Sound(SetReg(m, idx, v))
  {
  }

  lemma RetKeeps(vm: Vm)
    requires Sound(vm)
    ensures var (vm', v) := PopWord(vm);
            Sound(vm'.(pc := v % U32_SIZE)) && SameImage(vm, vm'.(pc := v % U32_SIZE))
  {
    PopKeeps(vm);
  }

  lemma JumpKeeps(vm: Vm, c: Cond)
    requires Sound(vm)
    ensures Sound(StepJump(vm, c)) && SameImage(vm, StepJump(vm, c))
  {
  }

  lemma TwoKeeps(vm: Vm, alu: Alu)
    requires Sound(vm)
    ensures Sound(StepTwo(vm, alu)) && SameImage(vm, StepTwo(vm, alu))
  {
    hide Apply, ReadU8, ReadU32;
    var (vm1, dst) := ReadU8(vm);
    var (vm2, mode) := ReadU8(vm1);
    if mode == 0 {
      var (vm3, src) := ReadU8(vm2);
      ApplyKeeps(vm3, alu, dst, GetReg(vm3, src));
    } else if mode == 1 {
      var (vm3, imm) := ReadU32(vm2);
      ImmBound(vm2);
      ApplyKeeps(vm3, alu, dst, imm);
    }
  }

  lemma ImmBound(vm: Vm)
    requires Sound(vm)
    ensures ReadU32(vm).1 < U32_SIZE
  {
    Pow4();
    if vm.pc + 4 <= vm.codeSize { ValBound(vm.mem[vm.pc..vm.pc + 4]); }
  }

  predicate Words(sys: seq<nat>) {
    forall i :: 0 <= i < |sys| ==> sys[i] < U64_SIZE
  }

  /** A run: one system call result for each instruction. */
  function Steps(vm: Vm, sys: seq<nat>): Vm
    requires Sound(vm) && Words(sys)
    decreases |sys|
  {
    if sys == [] then vm
    else
      StepKeepsImage(vm, sys[0]);
      Steps(Step(vm, sys[0]), sys[1..])
  }

  /** Over any run of any bytes the code and data sections stay as loaded. */
  lemma {:induction false} StepsKeepImage(vm: Vm, sys: seq<nat>)
    requires Sound(vm) && Words(sys)
    ensures Sound(Steps(vm, sys)) && SameImage(vm, Steps(vm, sys))
    decreases |sys|
  {
    if sys != [] {
      hide Step;
      StepKeepsImage(vm, sys[0]);
      StepsKeepImage(Step(vm, sys[0]), sys[1..]);
    }
  }
}
