/** The vm_t object of the executor, its memory an array stored into in place. */
module BexeExecutor {
  import opened Bytes
  import opened BexeCode
  import opened BexeVm
  import opened BexeRun

  const MAX_INSTRUCTIONS: nat := 10_000_000

  class VirtualMachine {
    const memory: array<byte>
    const codeSize: nat
    const dataSize: nat
    /** rax to r15 by register code. */
    var regs: seq<nat>
    var ip: nat
    var flags: nat
    var running: bool
    var instructionCount: nat

    ghost function State(): Vm
      reads this, memory
    {
      Machine(ip, memory[..], codeSize, dataSize, regs, flags, running, false)
    }

    /** The machine bexe_load sets up from a file. */
    constructor (file: seq<byte>)
      requires Load(file).Loaded?
      ensures State() == Load(file).vm && instructionCount == 0 && fresh(memory)
    {
      var cs, ds, bs := Val(file[4..6]), Val(file[6..8]), Val(file[8..10]);
      var total := cs + ds + bs + STACK;
      codeSize, dataSize := cs, ds;
      regs := Registers(total);
      ip, flags, running, instructionCount := 0, 0, true, 0;
      memory := new byte[total](_ => 0);
      new;
      forall i | 0 <= i < cs + ds {
        memory[i] := file[10 + i];
      }
      assert memory[..] == file[10..10 + cs + ds] + Zeros(bs + STACK);
    }

    method ReadByte() returns (b: byte)
      requires Sound(State())
      modifies `ip, `running
      ensures (State(), b) == ReadU8(old(State()))
    {
      if ip >= codeSize {
        running := false;
        return 0;
      }
      b := memory[ip];
      ip := ip + 1;
    }

    method ReadAddress() returns (v: nat)
      requires Sound(State())
      modifies `ip, `running
      ensures (State(), v) == ReadU32(old(State()))
    {
      if ip + 4 > codeSize {
        running := false;
        return 0;
      }
      v := Val(memory[ip..ip + 4]);
      assert memory[..][ip..ip + 4] == memory[ip..ip + 4];
      ip := ip + 4;
    }

    /** push; the caller keeps rsp where the store lands in memory or is refused. */
    method Push(value: nat)
      requires Sound(State()) && !PushWord(State(), value).wild
      modifies this`regs, this`running, memory
      ensures State() == PushWord(old(State()), value)
    {
      hide LE;
      regs := regs[RSP := (regs[RSP] - 8) % U64_SIZE];
      var sp := regs[RSP];
      if sp < codeSize + dataSize {
        running := false;
        return;
      }
      var word := LE(8, value);
      forall i | 0 <= i < 8 {
        memory[sp + i] := word[i];
      }
      assert memory[..] == Patch(old(memory[..]), sp, word);
    }

    method Pop() returns (value: nat)
      requires Sound(State())
      modifies `regs, `running
      ensures (State(), value) == PopWord(old(State()))
    {
      var sp := regs[RSP];
      if sp >= memory.Length - 8 {
        running := false;
        return 0;
      }
      value := Val(memory[sp..sp + 8]);
      assert memory[..][sp..sp + 8] == memory[sp..sp + 8];
      regs := regs[RSP := sp + 8];
    }

    /** One two-operand instruction after its opcode. */
    method ExecuteTwo(alu: Alu)
      requires Sound(State())
      modifies `regs, `ip, `flags, `running
      ensures State() == StepTwo(old(State()), alu)
    {
      hide ReadU8, ReadU32;
      var dst := ReadByte();
      var mode := ReadByte();
      if mode == 0 {
        var src := ReadByte();
        Operate(alu, dst, regs[RegIndex(src)]);
      } else if mode == 1 {
        var imm := ReadAddress();
        Operate(alu, dst, imm);
      } else if alu == Mv {
        running := false;
      }
    }

    method Operate(alu: Alu, dst: byte, b: nat)
      requires Sound(State())
      modifies `regs, `flags, `running
      ensures State() == Apply(old(State()), alu, dst, b)
    {
      hide Result, Flags;
      var a := regs[RegIndex(dst)];
      if alu == Cmp {
        UpdateFlags(a, b);
      } else if alu == Div && b == 0 {
        running := false;
      } else {
        regs := regs[RegIndex(dst) := Result(alu, a, b)];
      }
    }

    /** update_flags on the signed difference of `a` and `b`. */
    method UpdateFlags(a: nat, b: nat)
      modifies `flags
      ensures flags == Flags(a, b)
    {
      var result := (a - b) % U64_SIZE;
      flags := 0;
      if result == 0 { flags := flags + FLAG_ZERO; }
      if result >= U64_SIZE / 2 { flags := flags + FLAG_SIGN + FLAG_LESS; }
      if 0 < result < U64_SIZE / 2 { flags := flags + FLAG_GREATER; }
    }

    method ExecuteJump(c: Cond)
      requires Sound(State())
      modifies `ip, `running
      ensures State() == StepJump(old(State()), c)
    {
      var addr := ReadAddress();
      if Taken(c, flags) { ip := addr; }
    }

    /** execute_instruction, given what the system call handler would return. */
    method ExecuteInstruction(sys: nat) returns (more: bool)
      requires Sound(State()) && sys < U64_SIZE && !Step(State(), sys).wild
      modifies this`regs, this`ip, this`flags, this`running, memory
      ensures State() == Step(old(State()), sys) && Sound(State())
      ensures more == running
    {
      StepKeepsImage(State(), sys);
      if !running { return false; }
      hide ReadU8, ReadU32, StepTwo, StepJump, PushWord, PopWord, Sound;
      NextSound(State());
      var opcode := ReadByte();
      if AluOf(opcode).Some? {
        ExecuteTwo(AluOf(opcode).value);
      } else if CondOf(opcode).Some? {
        ExecuteJump(CondOf(opcode).value);
      } else if opcode == 0x20 {
        ExecutePush();
      } else if opcode == 0x21 {
        ExecutePop();
      } else if opcode == 0x30 {
        ExecuteCall();
      } else if opcode == 0x31 {
        var value := Pop();
        ip := value % U32_SIZE;
      } else if opcode == 0x50 {
        NextSound(State());
        var number := ReadByte();
        regs := regs[RAX := sys];
      } else if opcode != 0x90 {
        running := false;
      }
      more := running;
    }

    method ExecutePush()
      requires Sound(State())
      requires var (vm, reg) := ReadU8(State()); |vm.regs| == 16 && !PushWord(vm, GetReg(vm, reg)).wild
      modifies this`regs, this`ip, this`running, memory
      ensures var (vm, reg) := ReadU8(old(State())); |vm.regs| == 16 && State() == PushWord(vm, GetReg(vm, reg))
    {
      hide ReadU8, PushWord, Sound;
      NextSound(State());
      var reg := ReadByte();
      Push(regs[RegIndex(reg)]);
    }

    method ExecutePop()
      requires Sound(State())
      modifies this`regs, this`ip, this`running
      ensures Sound(ReadU8(old(State())).0)
      ensures var (vm, reg) := ReadU8(old(State()));
              var (vm', v) := PopWord(vm);
              |vm'.regs| == 16 && State() == SetReg(vm', reg, v)
    {
      hide ReadU8, PopWord, Sound;
      NextSound(State());
      var reg := ReadByte();
      SixteenRegs(State());
      var value := Pop();
      regs := regs[RegIndex(reg) := value];
    }

    method ExecuteCall()
      requires Sound(State())
      requires var (vm, addr) := ReadU32(State()); |vm.regs| == 16 && !PushWord(vm, vm.pc).wild
      modifies this`regs, this`ip, this`running, memory
      ensures var (vm, addr) := ReadU32(old(State())); |vm.regs| == 16 && State() == PushWord(vm, vm.pc).(pc := addr)
    {
      hide ReadU32, PushWord, Sound;
      NextSound(State());
      var addr := ReadAddress();
      Push(ip);
      ip := addr;
    }

    /** bexe_execute: at most ten million instructions, system call results given in order. */
    method Execute(sys: seq<nat>)
      requires Sound(State()) && Words(sys) && |sys| == 10_000_000 && instructionCount == 0
      requires forall n :: 0 <= n <= |sys| ==> !Steps(State(), sys[..n]).wild
      modifies this, memory
      ensures exists n :: 0 <= n <= |sys| && State() == Steps(old(State()), sys[..n]) && (running ==> n == |sys|)
      ensures SameImage(old(State()), State())
    {
      ghost var vm, n := State(), 0;
      RunBegins(vm, sys);
      hide *;
      while running && instructionCount < MAX_INSTRUCTIONS
        invariant Ran(vm, sys, n, State()) && (running ==> instructionCount == n)
        decreases MAX_INSTRUCTIONS - instructionCount, running
      {
        RunGoesOn(vm, sys, n, State());
        var more := ExecuteInstruction(sys[instructionCount]);
        n := n + 1;
        if !more { break; }
        instructionCount := instructionCount + 1;
      }
      RunEnds(vm, sys, n, State());
    }
  }

  /** After `n` instructions of a run that makes no store out of bounds. */
  ghost predicate Ran(vm: Vm, sys: seq<nat>, n: nat, s: Vm) {
    && n <= |sys| && Words(sys) && Sound(vm) && Sound(s)
    && s == Steps(vm, sys[..n])
    && forall k :: 0 <= k <= |sys| ==> !Steps(vm, sys[..k]).wild
  }

  lemma RunBegins(vm: Vm, sys: seq<nat>)
    requires Sound(vm) && Words(sys) && forall k :: 0 <= k <= |sys| ==> !Steps(vm, sys[..k]).wild
    ensures Ran(vm, sys, 0, vm)
  {
    NoSteps(vm);
    assert sys[..0] == [];
  }

  lemma RunGoesOn(vm: Vm, sys: seq<nat>, n: nat, s: Vm)
    requires Ran(vm, sys, n, s) && n < |sys|
    ensures Sound(s) && sys[n] < U64_SIZE && !Step(s, sys[n]).wild
    ensures Ran(vm, sys, n + 1, Step(s, sys[n]))
  {
    hide Step, Sound, Steps;
    OneMore(vm, sys, n);
    SysWord(sys, n);
    assert !Steps(vm, sys[..n + 1]).wild;
    StepKeepsImage(s, sys[n]);
  }

  lemma RunEnds(vm: Vm, sys: seq<nat>, n: nat, s: Vm)
    requires Ran(vm, sys, n, s)
    ensures n <= |sys| && s == Steps(vm, sys[..n]) && SameImage(vm, s)
  {
    hide Step, Sound, Steps, SameImage;
    PrefixWords(sys, n);
    StepsKeepImage(vm, sys[..n]);
  }

  lemma PrefixWords(sys: seq<nat>, n: nat)
    requires Words(sys) && n <= |sys|
    ensures Words(sys[..n])
  {
  }

  /** Reading leaves the machine sound. */
  lemma NextSound(vm: Vm)
    requires Sound(vm)
    ensures Sound(ReadU8(vm).0) && Sound(ReadU32(vm).0) && |ReadU8(vm).0.regs| == 16
  {
  }

  lemma SixteenRegs(vm: Vm)
    requires Sound(vm)
    ensures Sound(PopWord(vm).0) && |PopWord(vm).0.regs| == 16
  {
    PopKeeps(vm);
  }

  lemma NoSteps(vm: Vm)
    requires Sound(vm)
    ensures Steps(vm, []) == vm
  {
  }

  lemma SysWord(sys: seq<nat>, n: nat)
    requires Words(sys) && n < |sys|
    ensures sys[n] < U64_SIZE
    ensures Words(sys[..n]) && Words(sys[..n + 1])
  {
  }

  lemma {:induction false} OneMore(vm: Vm, sys: seq<nat>, n: nat)
    requires Sound(vm) && Words(sys) && n < |sys|
    ensures Sound(Steps(vm, sys[..n]))
    ensures Steps(vm, sys[..n + 1]) == Step(Steps(vm, sys[..n]), sys[n])
    decreases n
  {
    if n > 0 {
      StepKeepsImage(vm, sys[0]);
      OneMore(Step(vm, sys[0]), sys[1..], n - 1);
      assert sys[..n][1..] == sys[1..][..n - 1] && sys[..n + 1][1..] == sys[1..][..n];
    } else {
      assert sys[..1][1..] == [];
    }
  }
}
