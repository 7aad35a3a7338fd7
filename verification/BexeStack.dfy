/** Stack discipline of VM runs: in-bounds stores, matched PUSH/POP and CALL/RET, and where they fail. */
module BexeStack {
  import opened BexeCode
  import opened BexeVm
  import opened BexeSim

  /** rsp is at the top of memory, or a whole number of words below it and above the program. */
  predicate StackOk<P>(m: Machine<P>)
    requires |m.regs| == 16
  {
    var sp := m.regs[RSP];
    sp == |m.mem| || (m.codeSize + m.dataSize <= sp <= |m.mem| - 8 && (|m.mem| - sp) % 8 == 0)
  }

  /** From a good stack a push goes astray exactly when rsp is below 8: the subtraction wraps around and the
      overflow test against the program's size no longer sees it. */
  lemma PushInBounds<P>(m: Machine<P>, v: nat)
    requires Sound(m) && StackOk(m) && !m.wild && m.running
    ensures PushWord(m, v).wild <==> m.regs[RSP] < 8
    ensures var m' := PushWord(m, v);
            && (m.regs[RSP] >= 8 ==> m'.regs[RSP] == m.regs[RSP] - 8)
            && (m'.running <==> m.regs[RSP] >= 8 && m.regs[RSP] - 8 >= m.codeSize + m.dataSize)
            && (m'.running ==> StackOk(m'))
  {
    hide LE, Patch;
    Below8(m.regs[RSP]);
    EightLess(|m.mem|, m.regs[RSP]);
  }

  lemma Below8(sp: nat)
    requires sp < U64_SIZE
    ensures (sp - 8) % U64_SIZE == if sp >= 8 then sp - 8 else sp - 8 + U64_SIZE
  {
  }

  lemma EightLess(top: nat, sp: nat)
    ensures (top - sp) % 8 == 0 ==> (top - (sp - 8)) % 8 == 0 && (top - (sp + 8)) % 8 == 0
  {
  }

  /** A pop reads inside memory, and stays on the grid. */
  lemma PopStack<P>(m: Machine<P>)
    requires Sound(m) && StackOk(m)
    ensures var (m', v) := PopWord(m);
            && m'.wild == m.wild && m'.mem == m.mem
            && (m'.running <==> m.running && m.regs[RSP] < |m.mem| - 8)
            && (m'.running ==> StackOk(m') && m'.regs[RSP] == m.regs[RSP] + 8)
  {
    hide Val;
    EightLess(|m.mem|, m.regs[RSP]);
    if m.regs[RSP] < |m.mem| - 8 { WholeWord(|m.mem|, m.regs[RSP]); }
  }

  lemma WholeWord(top: nat, sp: nat)
    requires sp < top - 8 && (top - sp) % 8 == 0
    ensures sp + 8 <= top - 8
  {
  }

  /** Instructions that do not write rsp themselves. */
  predicate KeepsRsp(i: Instr) {
    match i
    case Two(alu, dst, _) => alu == Cmp || dst as nat != RSP
    case Pop(reg) => reg as nat != RSP
    case _ => true
  }

  ghost predicate Disciplined(instrs: seq<Instr>) {
    forall i :: i in instrs ==> KeepsRsp(i) && Legal(i)
  }

  ghost predicate Safe(s: Sym)
    requires |s.regs| == 16
  {
    !s.wild && (s.running ==> StackOk(s))
  }

  lemma ApplyStack(m: Sym, alu: Alu, dst: nat, b: nat)
    requires Sound(m) && dst < 16 && (alu == Cmp || dst != RSP)
    ensures var m' := Apply(m, alu, dst, b);
            |m'.regs| == 16 && m'.regs[RSP] == m.regs[RSP] && m'.mem == m.mem && m'.wild == m.wild
            && m'.codeSize == m.codeSize && m'.dataSize == m.dataSize
            && (m'.running ==> m.running)
  {
  }

  /** The overflow test stops a push before rsp can get below 8: the lowest word boundary of the stack lies
      inside the program. Programs of at least 8 bytes always have room. */
  predicate Roomy(m: Sym) {
    |m.mem| % 8 < m.codeSize + m.dataSize
  }

  lemma LowestSlot(top: nat, sp: nat)
    requires sp < 8 && sp <= top && (top - sp) % 8 == 0
    ensures sp == top % 8
  {
  }

  /** In a roomy machine no line makes a store out of bounds or takes rsp off its grid. */
  lemma StepSafe(instrs: seq<Instr>, env: map<string, nat>, s: Sym, sys: nat)
    requires Linked(instrs, env, s) && ValidPc(instrs, s.pc) && sys < U64_SIZE
    requires Disciplined(instrs) && Safe(s) && Roomy(s)
    ensures |SymStep(instrs, env, s, sys).regs| == 16 && Safe(SymStep(instrs, env, s, sys))
  {
    if s.running && s.pc.At? {
      var k := s.pc.line;
      var i, next := instrs[k], s.(pc := After(instrs, k));
      assert i in instrs;
      assert Sound(next) && StackOk(next);
      hide Linked, Apply, PushWord, PopWord, Off, PcOf, StackOk, Flags;
      StackOkAt(s, next);
      match i {
        case Two(alu, dst, src) =>
          ApplyStack(next, alu, dst, Second(s, env, src));
          SameStack(next, Apply(next, alu, dst, Second(s, env, src)));
        case Call(l) =>
          PushSafe(next, AddrOf(instrs, next.pc));
          var s' := PushWord(next, AddrOf(instrs, next.pc));
          SameStack(s', s'.(pc := PcOf(instrs, LabelAddr(env, l))));
        case Push(reg) => PushSafe(next, GetReg(s, reg));
        case Pop(reg) =>
          PopSafe(next);
          var (s', v) := PopWord(next);
          SameStack(s', SetReg(s', reg, v));
        case Ret =>
          PopSafe(next);
          var (s', v) := PopWord(next);
          SameStack(s', s'.(pc := PcOf(instrs, v % U32_SIZE)));
        case Jump(cond, l) => SameStack(s, s.(pc := PcOf(instrs, LabelAddr(env, l))));
        case Interrupt(_) => SameStack(next, SetReg(next, RAX, sys));
        case Syscall => SameStack(next, SetReg(next, RAX, sys));
        case Hlt =>
        case Nop =>
      }
    }
  }

  lemma StackOkAt(s: Sym, s': Sym)
    requires Sound(s) && s' == s.(pc := s'.pc) && StackOk(s')
    ensures StackOk(s)
  {
  }

  /** Being safe depends on rsp and the sizes alone. */
  lemma SameStack(s: Sym, s': Sym)
    requires |s.regs| == |s'.regs| == 16 && Safe(s)
    requires s'.regs[RSP] == s.regs[RSP] && |s'.mem| == |s.mem| && s'.wild == s.wild && (s'.running ==> s.running)
    requires s'.codeSize == s.codeSize && s'.dataSize == s.dataSize
    ensures Safe(s')
  {
  }

  lemma PushSafe(s: Sym, v: nat)
    requires Sound(s) && s.running && !s.wild && StackOk(s) && Roomy(s)
    ensures Sound(PushWord(s, v)) && Safe(PushWord(s, v))
  {
    PushKeeps(s, v);
    PushInBounds(s, v);
    if s.regs[RSP] < 8 {
      LowestSlot(|s.mem|, s.regs[RSP]);
      assert false;
    }
  }

  lemma PopSafe(s: Sym)
    requires Sound(s) && s.running && !s.wild && StackOk(s)
    ensures Sound(PopWord(s).0) && Safe(PopWord(s).0)
  {
    PopKeeps(s);
    PopStack(s);
  }

  /** Stack safety over every run of a program with room that never writes rsp itself. */
  lemma {:induction false} RunSafe(instrs: seq<Instr>, env: map<string, nat>, s: Sym, sys: seq<nat>)
    requires Linked(instrs, env, s) && ValidPc(instrs, s.pc) && Words(sys)
    requires Disciplined(instrs) && Safe(s) && Roomy(s)
    ensures |SymSteps(instrs, env, s, sys).regs| == 16 && Safe(SymSteps(instrs, env, s, sys))
    decreases |sys|
  {
    if sys != [] {
      StepSafe(instrs, env, s, sys[0]);
      SymKeepsLinked(instrs, env, s, sys[0]);
      SameSizes(instrs, env, s, sys[0]);
      hide SymStep, Linked, Safe;
      RunSafe(instrs, env, SymStep(instrs, env, s, sys[0]), sys[1..]);
    }
  }

  lemma SameSizes(instrs: seq<Instr>, env: map<string, nat>, s: Sym, sys: nat)
    requires Linked(instrs, env, s) && ValidPc(instrs, s.pc) && sys < U64_SIZE
    ensures SymStep(instrs, env, s, sys).codeSize == s.codeSize && SymStep(instrs, env, s, sys).dataSize == s.dataSize
  {
    SymKeepsLinked(instrs, env, s, sys);
    hide SymStep, Flat, Off;
  }

  // ---- Matched pairs ----

  /** A word pushed is popped again, with rsp back where it was, exactly when the push did not fill the
      topmost slot: from an empty stack the machine stops instead. */
  lemma PushThenPop<P>(m: Machine<P>, v: nat)
    requires Sound(m) && v < U64_SIZE && m.running
    requires m.codeSize + m.dataSize + 8 <= m.regs[RSP] <= |m.mem|
    ensures Sound(PushWord(m, v))
    ensures var (m', w) := PopWord(PushWord(m, v));
            && m'.running == (m.regs[RSP] < |m.mem|)
            && (m.regs[RSP] < |m.mem| ==> w == v && m'.regs == m.regs)
  {
    PushKeeps(m, v);
    Below8(m.regs[RSP]);
    Pow4();
    ValOfLE(8, v);
    hide LE, Val;
    var sp := m.regs[RSP] - 8;
    assert Patch(m.mem, sp, LE(8, v))[sp..sp + 8] == LE(8, v);
    assert m.regs[RSP := sp][RSP := sp + 8] == m.regs;
  }

  /** A RET that finds rsp and the word there as CALL left them goes on after the CALL, whatever else the
      callee has done, unless the CALL pushed the first word of an empty stack: then it stops the machine. */
  lemma CallThenRet(instrs: seq<Instr>, env: map<string, nat>, s: Sym, k: nat, t: Sym, j: nat, sys: nat)
    requires Linked(instrs, env, s) && s.running && s.pc == At(k) && k < |instrs| && instrs[k].Call?
    requires s.codeSize + s.dataSize + 8 <= s.regs[RSP] <= |s.mem|
    requires var s' := Exec(instrs, env, s, k, sys);
             && Sound(t) && t.running && |s'.regs| == 16 && t.regs[RSP] == s'.regs[RSP] && |t.mem| == |s'.mem|
             && SameTop(s', t)
    requires t.pc == At(j) && j < |instrs| && instrs[j] == Ret
    ensures var t' := Exec(instrs, env, t, j, sys);
            && t'.running == (s.regs[RSP] < |s.mem|)
            && (s.regs[RSP] < |s.mem| ==> t'.pc == After(instrs, k) && t'.regs[RSP] == s.regs[RSP])
  {
    hide *;
    var next, v := s.(pc := After(instrs, k)), AddrOf(instrs, After(instrs, k));
    LinkedSound(instrs, env, s, After(instrs, k));
    CallIs(instrs, env, s, k, sys);
    ReturnAddress(instrs, env, s, k);
    PushThenPop(next, v);
    RetIs(instrs, env, t, j, sys);
    SameTopAlso(Exec(instrs, env, s, k, sys), PushWord(next, v), t, t.(pc := After(instrs, j)));
    PopSame(PushWord(next, v), t.(pc := After(instrs, j)));
  }

  lemma SameTopAlso(m: Sym, m': Sym, t: Sym, t': Sym)
    requires |m.regs| == 16 && |t.mem| == |m.mem| && SameTop(m, t)
    requires m'.regs == m.regs && m'.mem == m.mem && t'.mem == t.mem
    ensures SameTop(m', t')
  {
  }

  /** The word at the top of the stack is the same. */
  predicate SameTop(m: Sym, t: Sym)
    requires |m.regs| == 16 && |t.mem| == |m.mem|
  {
    var sp := m.regs[RSP];
    sp + 8 <= |m.mem| ==> t.mem[sp..sp + 8] == m.mem[sp..sp + 8]
  }

  lemma LinkedSound(instrs: seq<Instr>, env: map<string, nat>, s: Sym, pc: Pc)
    requires Linked(instrs, env, s)
    ensures Sound(s) && Sound(s.(pc := pc))
  {
  }

  lemma ReturnAddress(instrs: seq<Instr>, env: map<string, nat>, s: Sym, k: nat)
    requires Linked(instrs, env, s) && k < |instrs|
    ensures AddrOf(instrs, After(instrs, k)) < U32_SIZE < U64_SIZE
    ensures PcOf(instrs, AddrOf(instrs, After(instrs, k)) % U32_SIZE) == After(instrs, k)
  {
    hide PcOf, Flat, Legal;
    OffAtMost(instrs, k + 1);
    OffsetIsLine(instrs, k + 1);
    var addr := AddrOf(instrs, After(instrs, k));
    assert addr == Off(instrs, k + 1) <= s.codeSize < U32_SIZE;
    hide Off;
    assert addr % U32_SIZE == addr;
  }

  lemma CallIs(instrs: seq<Instr>, env: map<string, nat>, s: Sym, k: nat, sys: nat)
    requires Sound(s) && k < |instrs| && instrs[k].Call?
    requires s.running && s.codeSize + s.dataSize + 8 <= s.regs[RSP] <= |s.mem|
    ensures var s' := Exec(instrs, env, s, k, sys);
            var p := PushWord(s.(pc := After(instrs, k)), AddrOf(instrs, After(instrs, k)));
            && s'.mem == p.mem && s'.regs == p.regs && p.running && |p.regs| == 16 && s.(pc := After(instrs, k)).regs == s.regs
  {
    Below8(s.regs[RSP]);
    hide Patch, LE, PcOf;
  }

  lemma RetIs(instrs: seq<Instr>, env: map<string, nat>, t: Sym, j: nat, sys: nat)
    requires Sound(t) && j < |instrs| && instrs[j] == Ret
    ensures Sound(t.(pc := After(instrs, j)))
    ensures var (p, w) := PopWord(t.(pc := After(instrs, j)));
            Exec(instrs, env, t, j, sys) == p.(pc := PcOf(instrs, w % U32_SIZE)) && |p.regs| == 16
  {
    hide Val, PcOf;
  }

  /** What a pop finds depends on rsp and the word there. */
  lemma PopSame(m: Sym, t: Sym)
    requires Sound(m) && Sound(t) && |t.mem| == |m.mem| && SameTop(m, t)
    requires t.regs[RSP] == m.regs[RSP] && t.running == m.running
    ensures PopWord(t).1 == PopWord(m).1 && PopWord(t).0.running == PopWord(m).0.running
    ensures PopWord(t).0.regs[RSP] == PopWord(m).0.regs[RSP]
  {
    hide Val;
  }
}
