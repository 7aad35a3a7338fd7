/** The program as written, line by line with its labels, and the VM on the assembled bytes: each VM step
    does what the line at that offset says. */
module BexeSim {
  import opened Options
  import opened Bytes
  import opened BexeCode
  import opened BexeAsm
  import opened BexeVm

  /** Where control is: at a line, past the code, or between the boundaries of two lines. */
  datatype Pc = At(line: nat) | Beyond(addr: nat) | Inside(addr: nat)

  type Sym = Machine<Pc>

  function FindLine(instrs: seq<Instr>, addr: nat, k: nat): (r: Option<nat>)
    ensures r.Some? ==> k <= r.value < |instrs| && Off(instrs, r.value) == addr
    ensures r == None ==> forall j :: k <= j < |instrs| ==> Off(instrs, j) != addr
    decreases |instrs| - k
  {
    if k >= |instrs| then None else if Off(instrs, k) == addr then Some(k) else FindLine(instrs, addr, k + 1)
  }

  /** What an address of the VM means in the program. */
  function PcOf(instrs: seq<Instr>, addr: nat): (pc: Pc)
    ensures ValidPc(instrs, pc) && AddrOf(instrs, pc) == addr
  {
    match FindLine(instrs, addr, 0)
    case Some(k) => At(k)
    case None => if addr >= Off(instrs, |instrs|) then Beyond(addr) else Inside(addr)
  }

  predicate ValidPc(instrs: seq<Instr>, pc: Pc) {
    match pc
    case At(k) => k < |instrs|
    case Beyond(addr) => addr >= Off(instrs, |instrs|)
    case Inside(_) => true
  }

  function AddrOf(instrs: seq<Instr>, pc: Pc): nat
    requires ValidPc(instrs, pc)
  {
    match pc
    case At(k) => Off(instrs, k)
    case Beyond(addr) => addr
    case Inside(addr) => addr
  }

  /** The line after `k`. */
  function After(instrs: seq<Instr>, k: nat): (pc: Pc)
    requires k < |instrs|
    ensures ValidPc(instrs, pc) && AddrOf(instrs, pc) == Off(instrs, k) + Size(instrs[k])
  {
    if k + 1 < |instrs| then At(k + 1) else Beyond(Off(instrs, |instrs|))
  }

  /** The machine state with its program counter as an address. */
  function Lower(instrs: seq<Instr>, s: Sym): Vm
    requires ValidPc(instrs, s.pc)
  {
    Machine(AddrOf(instrs, s.pc), s.mem, s.codeSize, s.dataSize, s.regs, s.flags, s.running, s.wild)
  }

  function LabelAddr(env: map<string, nat>, name: string): nat {
    if name in env then env[name] % U32_SIZE else 0
  }

  /** The value of an instruction's second operand. */
  function Second(s: Sym, env: map<string, nat>, src: Operand): nat
    requires |s.regs| == 16
  {
    match src
    case Register(r) => GetReg(s, r)
    case Number(n) => n % U32_SIZE
    case Symbol(l) => LabelAddr(env, l)
  }

  /** What line `k` does. */
  function Exec(instrs: seq<Instr>, env: map<string, nat>, s: Sym, k: nat, sys: nat): (s': Sym)
    requires Sound(s) && k < |instrs|
    ensures ValidPc(instrs, s'.pc)
  {
    var next := s.(pc := After(instrs, k));
    match instrs[k]
    case Two(alu, dst, src) => Apply(next, alu, dst, Second(s, env, src))
    case Jump(cond, l) => if Taken(cond, s.flags) then s.(pc := PcOf(instrs, LabelAddr(env, l))) else next
    case Call(l) => PushWord(next, AddrOf(instrs, next.pc)).(pc := PcOf(instrs, LabelAddr(env, l)))
    case Push(reg) => PushWord(next, GetReg(s, reg))
    case Pop(reg) => SetReg(PopWord(next).0, reg, PopWord(next).1)
    case Interrupt(_) => SetReg(next, RAX, sys)
    case Syscall => SetReg(next, RAX, sys)
    case Ret => PopWord(next).0.(pc := PcOf(instrs, PopWord(next).1 % U32_SIZE))
    case Hlt => next.(running := false)
    case Nop => next
  }

  /** One step of the program; past its end it stops. */
  function SymStep(instrs: seq<Instr>, env: map<string, nat>, s: Sym, sys: nat): (s': Sym)
    requires Sound(s) && ValidPc(instrs, s.pc)
    ensures ValidPc(instrs, s'.pc)
  {
    if !s.running then s else if s.pc.At? then Exec(instrs, env, s, s.pc.line, sys) else s.(running := false)
  }

  /** The machine holds the linked code of the program. */
  ghost predicate Linked<P>(instrs: seq<Instr>, env: map<string, nat>, m: Machine<P>) {
    && Sound(m) && m.codeSize == Off(instrs, |instrs|) && m.mem[..m.codeSize] == Flat(instrs, env)
    && forall i :: i in instrs ==> Legal(i)
  }

  // ---- Fetching from linked code ----

  /** The next bytes of the code. */
  ghost predicate Here(vm: Vm, bytes: seq<byte>) {
    vm.pc + |bytes| <= vm.codeSize <= |vm.mem| && vm.mem[vm.pc..vm.pc + |bytes|] == bytes
  }

  lemma ReadHere(vm: Vm, bytes: seq<byte>)
    requires Sound(vm) && Here(vm, bytes) && bytes != []
    ensures ReadU8(vm) == (vm.(pc := vm.pc + 1), bytes[0]) && Here(vm.(pc := vm.pc + 1), bytes[1..])
  {
    assert bytes[0] == vm.mem[vm.pc];
  }

  lemma ReadWordHere(vm: Vm, v: nat)
    requires Sound(vm) && Here(vm, LE(4, v)) && v < U32_SIZE
    ensures ReadU32(vm) == (vm.(pc := vm.pc + 4), v)
  {
    hide LE;
    Pow4();
    ValOfLE(4, v);
  }

  lemma LineHere(instrs: seq<Instr>, env: map<string, nat>, vm: Vm, k: nat)
    requires Linked(instrs, env, vm) && k < |instrs| && vm.pc == Off(instrs, k)
    ensures Here(vm, Encode(instrs[k], env)) && Legal(instrs[k])
  {
    FlatAt(instrs, env, k);
    FlatLength(instrs, env);
    hide Flat, Encode, Off, Legal;
    var from, to := Off(instrs, k), Off(instrs, k) + Size(instrs[k]);
    assert vm.mem[..vm.codeSize][from..to] == vm.mem[from..to];
  }

  // ---- Simulation ----

  lemma Opcodes(a: Alu, c: Cond)
    ensures AluOf(AluOpcode(a)) == Some(a)
    ensures AluOf(JumpOpcode(c)) == None && CondOf(JumpOpcode(c)) == Some(c)
  {
  }

  lemma TwoReg(vm: Vm, alu: Alu, dst: byte, r: byte)
    requires Sound(vm) && Here(vm, [dst, 0x00, r])
    ensures StepTwo(vm, alu) == Apply(vm.(pc := vm.pc + 3), alu, dst, GetReg(vm, r))
  {
    hide Apply, ReadU8, ReadU32, Here;
    ReadHere(vm, [dst, 0x00, r]);
    assert [dst, 0x00, r][1..] == [0x00, r] && [0x00, r][1..] == [r];
    ReadHere(vm.(pc := vm.pc + 1), [0x00, r]);
    ReadHere(vm.(pc := vm.pc + 2), [r]);
  }

  lemma TwoImm(vm: Vm, alu: Alu, dst: byte, v: nat)
    requires Sound(vm) && Here(vm, [dst, 0x01] + LE(4, v)) && v < U32_SIZE
    ensures StepTwo(vm, alu) == Apply(vm.(pc := vm.pc + 6), alu, dst, v)
  {
    hide Apply, ReadU8, ReadU32, Here, LE;
    var bytes := [dst, 0x01] + LE(4, v);
    ReadHere(vm, bytes);
    assert bytes[1..] == [0x01] + LE(4, v) && ([0x01] + LE(4, v))[1..] == LE(4, v);
    ReadHere(vm.(pc := vm.pc + 1), [0x01] + LE(4, v));
    ReadWordHere(vm.(pc := vm.pc + 2), v);
  }

  lemma StepIsTwo(vm: Vm, alu: Alu, rest: seq<byte>, sys: nat)
    requires Sound(vm) && vm.running && Here(vm, [AluOpcode(alu)] + rest)
    ensures Step(vm, sys) == StepTwo(vm.(pc := vm.pc + 1), alu) && Here(vm.(pc := vm.pc + 1), rest)
  {
    Opcodes(alu, Always);
    hide ReadU8, Here, AluOf, AluOpcode, StepTwo;
    ReadHere(vm, [AluOpcode(alu)] + rest);
    assert ([AluOpcode(alu)] + rest)[1..] == rest;
  }

  lemma TwoSimulates(vm: Vm, env: map<string, nat>, alu: Alu, dst: byte, src: Operand, sys: nat, s: Sym)
    requires Sound(vm) && vm.running && Here(vm, Encode(Two(alu, dst, src), env)) && s.regs == vm.regs
    ensures Step(vm, sys) == Apply(vm.(pc := vm.pc + Size(Two(alu, dst, src))), alu, dst, Second(s, env, src))
  {
    hide Apply, LE, AluOpcode, Step, StepTwo, Here;
    if src.Register? {
      assert Encode(Two(alu, dst, src), env) == [AluOpcode(alu)] + [dst, 0x00, src.r];
      StepIsTwo(vm, alu, [dst, 0x00, src.r], sys);
      TwoReg(vm.(pc := vm.pc + 1), alu, dst, src.r);
    } else {
      var v := if src.Number? then src.n % U32_SIZE else LabelAddr(env, src.name);
      assert Encode(Two(alu, dst, src), env) == [AluOpcode(alu)] + ([dst, 0x01] + LE(4, v));
      StepIsTwo(vm, alu, [dst, 0x01] + LE(4, v), sys);
      TwoImm(vm.(pc := vm.pc + 1), alu, dst, v);
    }
  }

  /** The instructions with one address operand. */
  lemma AddressRead(vm: Vm, opcode: byte, v: nat)
    requires Sound(vm) && Here(vm, [opcode] + LE(4, v)) && v < U32_SIZE
    ensures ReadU8(vm) == (vm.(pc := vm.pc + 1), opcode)
    ensures ReadU32(vm.(pc := vm.pc + 1)) == (vm.(pc := vm.pc + 5), v)
  {
    ReadHere(vm, [opcode] + LE(4, v));
    assert ([opcode] + LE(4, v))[1..] == LE(4, v);
    ReadWordHere(vm.(pc := vm.pc + 1), v);
  }

  lemma PairRead(vm: Vm, opcode: byte, x: byte)
    requires Sound(vm) && Here(vm, [opcode, x])
    ensures ReadU8(vm) == (vm.(pc := vm.pc + 1), opcode)
    ensures ReadU8(vm.(pc := vm.pc + 1)) == (vm.(pc := vm.pc + 2), x)
  {
    ReadHere(vm, [opcode, x]);
    assert [opcode, x][1..] == [x];
    ReadHere(vm.(pc := vm.pc + 1), [x]);
  }

  /** Decoding from bytes and reading the line agree. */
  lemma StepSimulates(instrs: seq<Instr>, env: map<string, nat>, s: Sym, sys: nat)
    requires Linked(instrs, env, s) && ValidPc(instrs, s.pc) && !s.pc.Inside?
    ensures Sound(Lower(instrs, s))
    ensures Step(Lower(instrs, s), sys) == Lower(instrs, SymStep(instrs, env, s, sys))
  {
    var vm := Lower(instrs, s);
    if s.running && s.pc.At? {
      LineSimulates(instrs, env, s, s.pc.line, sys);
    }
  }

  /** The machine is about to run line `k`. */
  ghost predicate Poised(instrs: seq<Instr>, env: map<string, nat>, s: Sym, k: nat) {
    Sound(s) && s.running && k < |instrs| && s.pc == At(k) && Here(Lower(instrs, s), Encode(instrs[k], env))
  }

  lemma LineSimulates(instrs: seq<Instr>, env: map<string, nat>, s: Sym, k: nat, sys: nat)
    requires Linked(instrs, env, s) && k < |instrs| && s.pc == At(k) && s.running
    ensures Step(Lower(instrs, s), sys) == Lower(instrs, Exec(instrs, env, s, k, sys))
  {
    LineHere(instrs, env, Lower(instrs, s), k);
    assert Poised(instrs, env, s, k);
    hide Step, Exec, Linked, Lower, Poised;
    match instrs[k] {
      case Two(alu, dst, src) => TwoLine(instrs, env, s, k, sys);
      case Jump(cond, l) => JumpLine(instrs, env, s, k, sys);
      case Call(l) => CallLine(instrs, env, s, k, sys);
      case Push(reg) => PushLine(instrs, env, s, k, sys);
      case Pop(reg) => PopLine(instrs, env, s, k, sys);
      case Interrupt(n) => InterruptLine(instrs, env, s, k, sys);
      case Syscall => InterruptLine(instrs, env, s, k, sys);
      case Ret => RetLine(instrs, env, s, k, sys);
      case Hlt => PlainLine(instrs, env, s, k, sys);
      case Nop => PlainLine(instrs, env, s, k, sys);
    }
  }

  lemma TwoLine(instrs: seq<Instr>, env: map<string, nat>, s: Sym, k: nat, sys: nat)
    requires Poised(instrs, env, s, k) && instrs[k].Two?
    ensures Step(Lower(instrs, s), sys) == Lower(instrs, Exec(instrs, env, s, k, sys))
  {
    var i := instrs[k];
    hide Step, Apply, Here;
    TwoSimulates(Lower(instrs, s), env, i.alu, i.dst, i.src, sys, s);
    ApplyLowers(instrs, s, After(instrs, k), i.alu, i.dst, Second(s, env, i.src));
  }

  lemma JumpLine(instrs: seq<Instr>, env: map<string, nat>, s: Sym, k: nat, sys: nat)
    requires Poised(instrs, env, s, k) && instrs[k].Jump?
    ensures Step(Lower(instrs, s), sys) == Lower(instrs, Exec(instrs, env, s, k, sys))
  {
    hide ReadU8, ReadU32, Here, AluOf, CondOf, JumpOpcode, Taken, Off, PcOf, LE, Flat;
    var i := instrs[k];
    Opcodes(Mv, i.cond);
    AddressRead(Lower(instrs, s), JumpOpcode(i.cond), LabelAddr(env, i.target));
  }

  lemma CallLine(instrs: seq<Instr>, env: map<string, nat>, s: Sym, k: nat, sys: nat)
    requires Poised(instrs, env, s, k) && instrs[k].Call?
    ensures Step(Lower(instrs, s), sys) == Lower(instrs, Exec(instrs, env, s, k, sys))
  {
    hide ReadU8, ReadU32, Here, Off, PcOf, PushWord, LE, Flat;
    AddressRead(Lower(instrs, s), 0x30, LabelAddr(env, instrs[k].target));
    PushLowers(instrs, s, After(instrs, k), Off(instrs, k) + Size(instrs[k]));
  }

  lemma PushLine(instrs: seq<Instr>, env: map<string, nat>, s: Sym, k: nat, sys: nat)
    requires Poised(instrs, env, s, k) && instrs[k].Push?
    ensures Step(Lower(instrs, s), sys) == Lower(instrs, Exec(instrs, env, s, k, sys))
  {
    hide ReadU8, ReadU32, Here, Off, PcOf, PushWord, LE, Flat;
    PairRead(Lower(instrs, s), 0x20, instrs[k].reg);
    PushLowers(instrs, s, After(instrs, k), GetReg(s, instrs[k].reg));
  }

  lemma PopLine(instrs: seq<Instr>, env: map<string, nat>, s: Sym, k: nat, sys: nat)
    requires Poised(instrs, env, s, k) && instrs[k].Pop?
    ensures Step(Lower(instrs, s), sys) == Lower(instrs, Exec(instrs, env, s, k, sys))
  {
    hide ReadU8, ReadU32, Here, Off, PcOf, PopWord, LE, Flat;
    PairRead(Lower(instrs, s), 0x21, instrs[k].reg);
    PopLowers(instrs, s, After(instrs, k));
  }

  lemma InterruptLine(instrs: seq<Instr>, env: map<string, nat>, s: Sym, k: nat, sys: nat)
    requires Poised(instrs, env, s, k) && (instrs[k].Interrupt? || instrs[k].Syscall?)
    ensures Step(Lower(instrs, s), sys) == Lower(instrs, Exec(instrs, env, s, k, sys))
  {
    hide ReadU8, ReadU32, Here, Off, PcOf, LE, Flat;
    PairRead(Lower(instrs, s), 0x50, if instrs[k].Syscall? then 0x80 else instrs[k].n % 0x100);
  }

  lemma RetLine(instrs: seq<Instr>, env: map<string, nat>, s: Sym, k: nat, sys: nat)
    requires Poised(instrs, env, s, k) && instrs[k].Ret?
    ensures Step(Lower(instrs, s), sys) == Lower(instrs, Exec(instrs, env, s, k, sys))
  {
    hide ReadU8, ReadU32, Here, Off, PcOf, Val, LE, Flat;
    ReadHere(Lower(instrs, s), [0x31]);
    PopLowers(instrs, s, After(instrs, k));
    var next := Lower(instrs, s).(pc := AddrOf(instrs, After(instrs, k)));
    assert next == ReadU8(Lower(instrs, s)).0;
  }

  lemma PlainLine(instrs: seq<Instr>, env: map<string, nat>, s: Sym, k: nat, sys: nat)
    requires Poised(instrs, env, s, k) && (instrs[k].Hlt? || instrs[k].Nop?)
    ensures Step(Lower(instrs, s), sys) == Lower(instrs, Exec(instrs, env, s, k, sys))
  {
    hide ReadU8, ReadU32, Here, Off, PcOf, LE, Flat;
    ReadHere(Lower(instrs, s), Encode(instrs[k], env));
  }

  lemma PushLowers(instrs: seq<Instr>, s: Sym, next: Pc, v: nat)
    requires Sound(s) && ValidPc(instrs, s.pc) && ValidPc(instrs, next)
    ensures PushWord(Lower(instrs, s).(pc := AddrOf(instrs, next)), v) == Lower(instrs, PushWord(s.(pc := next), v))
  {
    hide Patch, LE;
  }

  lemma PopLowers(instrs: seq<Instr>, s: Sym, next: Pc)
    requires Sound(s) && ValidPc(instrs, s.pc) && ValidPc(instrs, next)
    ensures var (vm, v), (s', v') := PopWord(Lower(instrs, s).(pc := AddrOf(instrs, next))), PopWord(s.(pc := next));
            v == v' && vm == Lower(instrs, s')
  {
    hide Val;
  }

  lemma ApplyLowers(instrs: seq<Instr>, s: Sym, next: Pc, alu: Alu, dst: nat, b: nat)
    requires Sound(s) && ValidPc(instrs, s.pc) && ValidPc(instrs, next)
    ensures Apply(Lower(instrs, s).(pc := AddrOf(instrs, next)), alu, dst, b) == Lower(instrs, Apply(s.(pc := next), alu, dst, b))
  {
  }

  // ---- Boundaries ----

  /** Labels name lines or addresses past the code, as those the assembler resolves do. */
  ghost predicate OnLines(instrs: seq<Instr>, env: map<string, nat>) {
    forall l :: l in env ==> env[l] < U32_SIZE && !PcOf(instrs, env[l]).Inside?
  }

  /** Control only gets between two lines through a RET whose popped word is no line's offset: every other
      instruction leads from a line to a line, past the code, or to a stop. */
  lemma OnlyRetStrays(instrs: seq<Instr>, env: map<string, nat>, s: Sym, sys: nat)
    requires Sound(s) && ValidPc(instrs, s.pc) && !s.pc.Inside? && OnLines(instrs, env) && AllDefined(instrs, env)
    requires SymStep(instrs, env, s, sys).pc.Inside?
    ensures s.running && s.pc.At? && instrs[s.pc.line] == Ret
    ensures var v := PopWord(s).1 % U32_SIZE;
            v < Off(instrs, |instrs|) && forall k :: 0 <= k < |instrs| ==> Off(instrs, k) != v
  {
    hide Off, Apply, PushWord, Taken;
    var i := instrs[s.pc.line];
    assert i in instrs && (SlotOf(i).Some? ==> SlotOf(i).value.name in env);
    var next := s.(pc := After(instrs, s.pc.line));
    PopPc(s, next.pc);
    if i.Two? { ApplyPc(next, i.alu, i.dst, Second(s, env, i.src)); }
    if i.Push? { PushPc(next, GetReg(s, i.reg)); }
    if i.Jump? || i.Call? {
      LabelOnLine(instrs, env, i.target);
    }
  }

  lemma ApplyPc(s: Sym, alu: Alu, dst: nat, b: nat)
    requires Sound(s)
    ensures Apply(s, alu, dst, b).pc == s.pc
  {
  }

  lemma PushPc(s: Sym, v: nat)
    requires Sound(s)
    ensures PushWord(s, v).pc == s.pc
  {
  }

  lemma PopPc(s: Sym, next: Pc)
    requires Sound(s)
    ensures PopWord(s.(pc := next)).1 == PopWord(s).1 && PopWord(s.(pc := next)).0.pc == next
  {
    hide Val;
  }

  lemma LabelOnLine(instrs: seq<Instr>, env: map<string, nat>, l: string)
    requires OnLines(instrs, env) && l in env
    ensures !PcOf(instrs, LabelAddr(env, l)).Inside?
  {
  }

  lemma {:induction false} FindsLine(instrs: seq<Instr>, k: nat, from: nat)
    requires from <= k < |instrs|
    ensures FindLine(instrs, Off(instrs, k), from) == Some(k)
    decreases k - from
  {
    if from < k {
      OffMonotone(instrs, from, k);
      FindsLine(instrs, k, from + 1);
    }
  }

  /** An offset the assembler assigns to a line is that line's. */
  lemma OffsetIsLine(instrs: seq<Instr>, k: nat)
    requires k <= |instrs|
    ensures PcOf(instrs, Off(instrs, k)) == if k < |instrs| then At(k) else Beyond(Off(instrs, k))
  {
    if k < |instrs| {
      FindsLine(instrs, k, 0);
    } else {
      var r := FindLine(instrs, Off(instrs, k), 0);
      if r.Some? { OffMonotone(instrs, r.value, k); }
    }
  }

  /** The labels of an assembled program that fits are on lines. */
  lemma EnvOnLines(stmts: seq<Statement>)
    requires Parsed(stmts).Some? && Fits(Parsed(stmts).value)
    ensures OnLines(Program(stmts), Env(Parsed(stmts).value))
  {
    ParsedBuilt(stmts);
    var a, instrs := Parsed(stmts).value, Program(stmts);
    FlatLength(instrs, map[]);
    hide Parsed, Program, Flat, Off, PcOf;
    forall l | l in Env(a)
      ensures Env(a)[l] < U32_SIZE && !PcOf(instrs, Env(a)[l]).Inside?
    {
      if l in a.labels {
        var k: nat :| k <= |instrs| && a.labels[l] == Off(instrs, k);
        OffsetIsLine(instrs, k);
        OffAtMost(instrs, k);
      } else {
        PastCode(instrs, Env(a)[l]);
      }
    }
  }

  lemma OffAtMost(instrs: seq<Instr>, k: nat)
    requires k <= |instrs|
    ensures Off(instrs, k) <= Off(instrs, |instrs|)
  {
    if k < |instrs| { OffMonotone(instrs, k, |instrs|); }
  }

  lemma PastCode(instrs: seq<Instr>, addr: nat)
    requires addr >= Off(instrs, |instrs|)
    ensures !PcOf(instrs, addr).Inside?
  {
  }

  // ---- Runs ----

  function SymSteps(instrs: seq<Instr>, env: map<string, nat>, s: Sym, sys: seq<nat>): (s': Sym)
    requires Linked(instrs, env, s) && ValidPc(instrs, s.pc) && Words(sys)
    ensures ValidPc(instrs, s'.pc)
    decreases |sys|
  {
    if sys == [] then s
    else
      SymKeepsLinked(instrs, env, s, sys[0]);
      SymSteps(instrs, env, SymStep(instrs, env, s, sys[0]), sys[1..])
  }

  /** Control stays on lines all through the run. */
  ghost predicate NeverStrays(instrs: seq<Instr>, env: map<string, nat>, s: Sym, sys: seq<nat>)
    requires Linked(instrs, env, s) && ValidPc(instrs, s.pc) && Words(sys)
    decreases |sys|
  {
    !s.pc.Inside? &&
    (sys != [] ==>
       (SymKeepsLinked(instrs, env, s, sys[0]);
        NeverStrays(instrs, env, SymStep(instrs, env, s, sys[0]), sys[1..])))
  }

  lemma SymKeepsLinked(instrs: seq<Instr>, env: map<string, nat>, s: Sym, sys: nat)
    requires Linked(instrs, env, s) && ValidPc(instrs, s.pc) && sys < U64_SIZE
    ensures Linked(instrs, env, SymStep(instrs, env, s, sys))
    ensures SymStep(instrs, env, s, sys).dataSize == s.dataSize && |SymStep(instrs, env, s, sys).mem| == |s.mem|
  {
    hide Step, Linked;
    if s.running && !s.pc.Inside? {
      StepSimulates(instrs, env, s, sys);
      StepKeepsImage(Lower(instrs, s), sys);
      hide SymStep;
      SameImageLinked(instrs, env, s, SymStep(instrs, env, s, sys));
    } else {
      StoppedLinked(instrs, env, s);
    }
  }

  lemma StoppedLinked(instrs: seq<Instr>, env: map<string, nat>, s: Sym)
    requires Linked(instrs, env, s)
    ensures Linked(instrs, env, s.(running := false))
  {
  }

  lemma SameImageLinked(instrs: seq<Instr>, env: map<string, nat>, s: Sym, s': Sym)
    requires Linked(instrs, env, s) && ValidPc(instrs, s.pc) && ValidPc(instrs, s'.pc)
    requires Sound(Lower(instrs, s')) && SameImage(Lower(instrs, s), Lower(instrs, s'))
    ensures Linked(instrs, env, s') && s'.dataSize == s.dataSize && |s'.mem| == |s.mem|
  {
    hide AddrOf, Flat, Off, Legal;
    assert s'.mem[..s.codeSize] == s'.mem[..s.codeSize + s.dataSize][..s.codeSize];
    assert s.mem[..s.codeSize] == s.mem[..s.codeSize + s.dataSize][..s.codeSize];
  }

  /** A program without RET stays on lines whatever it does. */
  lemma {:induction false} NoRetNeverStrays(instrs: seq<Instr>, env: map<string, nat>, s: Sym, sys: seq<nat>)
    requires Linked(instrs, env, s) && ValidPc(instrs, s.pc) && Words(sys) && !s.pc.Inside?
    requires OnLines(instrs, env) && AllDefined(instrs, env) && Ret !in instrs
    ensures NeverStrays(instrs, env, s, sys)
    decreases |sys|
  {
    if sys != [] {
      SymKeepsLinked(instrs, env, s, sys[0]);
      hide SymStep, OnLines, AllDefined;
      var s' := SymStep(instrs, env, s, sys[0]);
      if s'.pc.Inside? {
        OnlyRetStrays(instrs, env, s, sys[0]);
      }
      NoRetNeverStrays(instrs, env, s', sys[1..]);
    }
  }

  /** Over any run that stays on lines, the VM on the linked bytes and the program line by line go through
      the same states. */
  lemma {:induction false} RunSimulates(instrs: seq<Instr>, env: map<string, nat>, s: Sym, sys: seq<nat>)
    requires Linked(instrs, env, s) && ValidPc(instrs, s.pc) && Words(sys) && NeverStrays(instrs, env, s, sys)
    ensures Sound(Lower(instrs, s))
    ensures Steps(Lower(instrs, s), sys) == Lower(instrs, SymSteps(instrs, env, s, sys))
    decreases |sys|
  {
    StepSimulates(instrs, env, s, if sys == [] then 0 else sys[0]);
    if sys != [] {
      SymKeepsLinked(instrs, env, s, sys[0]);
      StepKeepsImage(Lower(instrs, s), sys[0]);
      hide Step, SymStep, Linked, Lower;
      RunSimulates(instrs, env, SymStep(instrs, env, s, sys[0]), sys[1..]);
    }
  }
}
