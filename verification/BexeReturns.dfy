/** Programs with subroutines that push nothing themselves: every word on the stack is a return address, so
    control never gets between two lines. */
module BexeReturns {
  import opened Bytes
  import opened BexeCode
  import opened BexeAsm
  import opened BexeVm
  import opened BexeSim
  import opened BexeRun
  import opened BexeStack

  /** The offset after some CALL line. */
  ghost predicate IsReturn(instrs: seq<Instr>, v: nat) {
    exists k: nat :: k < |instrs| && CallBefore(instrs, k, v)
  }

  predicate CallBefore(instrs: seq<Instr>, k: nat, v: nat)
    requires k < |instrs|
  {
    instrs[k].Call? && v == AddrOf(instrs, After(instrs, k))
  }

  /** The `i`-th word of the stack, counted from its bottom at the top of memory. */
  function StackWord(mem: seq<byte>, i: nat): nat
    requires 8 * i + 8 <= |mem|
  {
    var at := |mem| - 8 * i - 8;
    Val(mem[at..at + 8])
  }

  /** `depth` words are on the stack, return addresses all of them. */
  ghost predicate OnlyReturns(instrs: seq<Instr>, s: Sym, depth: nat) {
    && |s.regs| == 16 && 8 * depth <= |s.mem| && s.regs[RSP] == |s.mem| - 8 * depth
    && forall i: nat :: i < depth ==> IsReturn(instrs, StackWord(s.mem, i))
  }

  /** Nothing but CALL pushes. */
  ghost predicate NoPush(instrs: seq<Instr>) {
    forall i :: i in instrs ==> !i.Push?
  }

  /** Pushing a return address. */
  lemma PushReturns(instrs: seq<Instr>, s: Sym, depth: nat, v: nat)
    requires Sound(s) && s.running && OnlyReturns(instrs, s, depth) && IsReturn(instrs, v) && v < U64_SIZE
    ensures var s' := PushWord(s, v); s'.running ==> OnlyReturns(instrs, s', depth + 1)
  {
    var s' := PushWord(s, v);
    Below8(s.regs[RSP]);
    if s'.running {
      var sp := s.regs[RSP] - 8;
      PushedWords(s.mem, depth, v);
      hide Patch, LE, Val, IsReturn, StackWord;
      assert s'.mem == Patch(s.mem, sp, LE(8, v)) && s'.regs[RSP] == sp;
    }
  }

  lemma PushedWords(mem: seq<byte>, depth: nat, v: nat)
    requires 8 * depth + 8 <= |mem| && v < U64_SIZE
    ensures var mem' := Patch(mem, |mem| - 8 * depth - 8, LE(8, v));
            && StackWord(mem', depth) == v
            && forall i: nat :: i < depth ==> StackWord(mem', i) == StackWord(mem, i)
  {
    var at := |mem| - 8 * depth - 8;
    var mem' := Patch(mem, at, LE(8, v));
    Pow4();
    ValOfLE(8, v);
    hide LE, Val;
    assert mem'[at..at + 8] == LE(8, v);
    forall i: nat | i < depth
      ensures StackWord(mem', i) == StackWord(mem, i)
    {
      var to := |mem| - 8 * i - 8;
      assert mem'[to..to + 8] == mem[to..to + 8];
    }
  }

  /** Popping: the machine stops on the last word, and delivers a return address before. */
  lemma PopReturns(instrs: seq<Instr>, s: Sym, depth: nat)
    requires Sound(s) && s.running && OnlyReturns(instrs, s, depth)
    ensures var (s', v) := PopWord(s);
            && (!s'.running ==> v == 0)
            && (s'.running ==> depth > 1 && IsReturn(instrs, v) && OnlyReturns(instrs, s', depth - 1))
  {
    hide Val, IsReturn;
    if depth > 1 { assert IsReturn(instrs, StackWord(s.mem, depth - 1)); }
  }

  /** A popped return address leads behind its CALL, and so does 0 to the first line. */
  lemma ReturnsToLine(instrs: seq<Instr>, v: nat)
    requires IsReturn(instrs, v) || v == 0
    requires v % U32_SIZE == v
    ensures !PcOf(instrs, v % U32_SIZE).Inside?
  {
    if v == 0 {
      OffsetIsLine(instrs, 0);
      assert Off(instrs, 0) == 0;
    } else {
      var k: nat :| k < |instrs| && CallBefore(instrs, k, v);
      OffsetIsLine(instrs, k + 1);
    }
  }

  lemma ReturnSmall(instrs: seq<Instr>, env: map<string, nat>, s: Sym, v: nat)
    requires Linked(instrs, env, s) && (IsReturn(instrs, v) || v == 0)
    ensures v < U32_SIZE && v % U32_SIZE == v
  {
    if v != 0 {
      var k: nat :| k < |instrs| && CallBefore(instrs, k, v);
      OffAtMost(instrs, k + 1);
    }
  }

  lemma CallIsReturn(instrs: seq<Instr>, env: map<string, nat>, s: Sym, k: nat)
    requires Linked(instrs, env, s) && k < |instrs| && instrs[k].Call?
    ensures IsReturn(instrs, AddrOf(instrs, After(instrs, k))) && AddrOf(instrs, After(instrs, k)) < U64_SIZE
  {
    assert CallBefore(instrs, k, AddrOf(instrs, After(instrs, k)));
    ReturnSmall(instrs, env, s, AddrOf(instrs, After(instrs, k)));
  }

  /** The stack depends on rsp and memory alone. */
  lemma SameReturns(instrs: seq<Instr>, s: Sym, s': Sym, depth: nat)
    requires OnlyReturns(instrs, s, depth) && |s'.regs| == 16 && s'.regs[RSP] == s.regs[RSP] && s'.mem == s.mem
    ensures OnlyReturns(instrs, s', depth)
  {
    hide StackWord, IsReturn;
  }

  lemma RetStaysOnLines(instrs: seq<Instr>, env: map<string, nat>, s: Sym, depth: nat, k: nat, sys: nat)
    requires Linked(instrs, env, s) && s.running && OnlyReturns(instrs, s, depth) && k < |instrs| && instrs[k] == Ret
    ensures !Exec(instrs, env, s, k, sys).pc.Inside?
  {
    var next := s.(pc := After(instrs, k));
    LinkedSound(instrs, env, s, After(instrs, k));
    SameReturns(instrs, s, next, depth);
    PopReturns(instrs, next, depth);
    RetIs(instrs, env, s, k, sys);
    var v := PopWord(next).1;
    hide *;
    ReturnSmall(instrs, env, s, v);
    ReturnsToLine(instrs, v);
  }

  /** One line, RET and CALL included, keeps to lines and to return addresses. */
  lemma LineReturns(instrs: seq<Instr>, env: map<string, nat>, s: Sym, sys: nat, depth: nat) returns (depth': nat)
    requires Linked(instrs, env, s) && s.running && s.pc.At? && s.pc.line < |instrs|
    requires Disciplined(instrs) && NoPush(instrs) && OnlyReturns(instrs, s, depth)
    ensures var s' := Exec(instrs, env, s, s.pc.line, sys); s'.running ==> OnlyReturns(instrs, s', depth')
  {
    var k := s.pc.line;
    var i, next := instrs[k], s.(pc := After(instrs, k));
    assert i in instrs && KeepsRsp(i) && Legal(i) && !i.Push?;
    LinkedSound(instrs, env, s, After(instrs, k));
    hide Linked, Apply, PushWord, PopWord, Off, PcOf, Flags, OnlyReturns, Sound, Disciplined, NoPush, After;
    depth' := depth;
    RspKept(s, next);
    SameReturns(instrs, s, next, depth);
    match i {
      case Two(alu, dst, src) =>
        ApplyStack(next, alu, dst, Second(s, env, src));
        SameReturns(instrs, next, Apply(next, alu, dst, Second(s, env, src)), depth);
      case Call(l) =>
        CallIsReturn(instrs, env, s, k);
        PushReturns(instrs, next, depth, AddrOf(instrs, next.pc));
        var s' := PushWord(next, AddrOf(instrs, next.pc));
        if s'.running {
          depth' := depth + 1;
          StackRegs(instrs, s', depth');
          SameReturns(instrs, s', s'.(pc := PcOf(instrs, LabelAddr(env, l))), depth');
        }
      case Pop(reg) =>
        PopReturns(instrs, next, depth);
        var (s', v) := PopWord(next);
        if s'.running {
          depth' := depth - 1;
          StackRegs(instrs, s', depth');
          SameReturns(instrs, s', SetReg(s', reg, v), depth');
        } else {
          PopRegs(next);
        }
      case Ret =>
        PopReturns(instrs, next, depth);
        var (s', v) := PopWord(next);
        if s'.running {
          depth' := depth - 1;
          StackRegs(instrs, s', depth');
          SameReturns(instrs, s', s'.(pc := PcOf(instrs, v % U32_SIZE)), depth');
        }
      case Jump(cond, l) => SameReturns(instrs, s, s.(pc := PcOf(instrs, LabelAddr(env, l))), depth);
      case Interrupt(_) => SameReturns(instrs, next, SetReg(next, RAX, sys), depth);
      case Syscall => SameReturns(instrs, next, SetReg(next, RAX, sys), depth);
      case Hlt =>
      case Nop =>
    }
  }

  lemma RspKept(s: Sym, s': Sym)
    requires Sound(s) && s' == s.(pc := s'.pc)
    ensures |s.regs| == |s'.regs| == 16 && s'.regs[RSP] == s.regs[RSP] && s'.mem == s.mem
  {
  }

  lemma StackRegs(instrs: seq<Instr>, s: Sym, depth: nat)
    requires OnlyReturns(instrs, s, depth)
    ensures |s.regs| == 16
  {
  }

  lemma PopRegs(s: Sym)
    requires Sound(s)
    ensures |PopWord(s).0.regs| == 16
  {
    hide Val;
  }

  /** A program with any subroutines whose own lines push nothing and leave rsp alone stays on lines: the
      hypothesis of the simulation theorem, for every run from any stack of return addresses. */
  lemma {:induction false} ReturnsNeverStray(instrs: seq<Instr>, env: map<string, nat>, s: Sym, sys: seq<nat>, depth: nat)
    requires Linked(instrs, env, s) && ValidPc(instrs, s.pc) && Words(sys) && !s.pc.Inside?
    requires OnLines(instrs, env) && AllDefined(instrs, env) && Disciplined(instrs) && NoPush(instrs)
    requires s.running ==> OnlyReturns(instrs, s, depth)
    ensures NeverStrays(instrs, env, s, sys)
    decreases |sys|
  {
    if sys != [] {
      SymKeepsLinked(instrs, env, s, sys[0]);
      hide SymStep, OnLines, AllDefined, Linked, OnlyReturns, Disciplined, NoPush;
      var depth' := StepReturns(instrs, env, s, sys[0], depth);
      ReturnsNeverStray(instrs, env, SymStep(instrs, env, s, sys[0]), sys[1..], depth');
    }
  }

  lemma StepReturns(instrs: seq<Instr>, env: map<string, nat>, s: Sym, sys: nat, depth: nat) returns (depth': nat)
    requires Linked(instrs, env, s) && ValidPc(instrs, s.pc) && !s.pc.Inside?
    requires OnLines(instrs, env) && AllDefined(instrs, env) && Disciplined(instrs) && NoPush(instrs)
    requires s.running ==> OnlyReturns(instrs, s, depth)
    ensures var s' := SymStep(instrs, env, s, sys); !s'.pc.Inside? && (s'.running ==> OnlyReturns(instrs, s', depth'))
  {
    depth' := depth;
    var s' := SymStep(instrs, env, s, sys);
    hide Linked, OnLines, AllDefined, Disciplined, NoPush, OnlyReturns, Exec, Off, PopWord;
    if s.running && s.pc.At? {
      depth' := LineReturns(instrs, env, s, sys, depth);
      LinkedSound(instrs, env, s, s.pc);
      if s'.pc.Inside? {
        OnlyRetStrays(instrs, env, s, sys);
        RetStaysOnLines(instrs, env, s, depth, s.pc.line, sys);
        assert false;
      }
    }
  }

  /** So does an assembled and loaded program of that kind, on every run. */
  lemma CallsNeverStray(stmts: seq<Statement>, sys: seq<nat>)
    requires Parsed(stmts).Some? && Fits(Parsed(stmts).value) && Words(sys)
    requires AllDefined(Program(stmts), Env(Parsed(stmts).value)) && Disciplined(Program(stmts)) && NoPush(Program(stmts))
    ensures var a := Parsed(stmts).value;
            var s := Start(Program(stmts), Env(a), a.data, a.bssSize);
            Linked(Program(stmts), Env(a), s) ==> NeverStrays(Program(stmts), Env(a), s, sys)
  {
    var a, instrs := Parsed(stmts).value, Program(stmts);
    var s := Start(instrs, Env(a), a.data, a.bssSize);
    EnvOnLines(stmts);
    OffsetIsLine(instrs, 0);
    hide Linked, Flat, PcOf, Parsed, Program, OnLines, AllDefined, Disciplined, NoPush;
    assert s.pc == PcOf(instrs, 0);
    assert OnlyReturns(instrs, s, 0);
    if Linked(instrs, Env(a), s) {
      ReturnsNeverStray(instrs, Env(a), s, sys, 0);
    }
  }
}
