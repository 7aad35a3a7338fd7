/** For which image sizes the VM's stack is safe: exactly, over all programs of those sizes. */
module BexeSizes {
  import opened Bytes
  import opened BexeCode
  import opened BexeAsm
  import opened BexeVm
  import opened BexeSim
  import opened BexeRun
  import opened BexeStack

  /** Code too short to loop, or a stack whose lowest word boundary lies inside the program. */
  predicate SafeImage(code: nat, data: nat, bss: nat) {
    code < 5 || (code + data + bss) % 8 < code + data
  }

  // ---- Code of at most four bytes ----

  /** Not more than one word pushed for every two bytes of code executed. */
  ghost predicate Shallow(instrs: seq<Instr>, s: Sym)
    requires |s.regs| == 16
  {
    && Safe(s) && (s.pc.At? ==> s.pc.line < |instrs|)
    && (s.running && s.pc.At? ==> s.regs[RSP] + 4 * Off(instrs, s.pc.line) >= |s.mem|)
  }

  lemma ShortStep(instrs: seq<Instr>, env: map<string, nat>, s: Sym, sys: nat)
    requires Linked(instrs, env, s) && ValidPc(instrs, s.pc) && sys < U64_SIZE
    requires Disciplined(instrs) && Shallow(instrs, s) && s.codeSize < 5
    ensures |SymStep(instrs, env, s, sys).regs| == 16 && Shallow(instrs, SymStep(instrs, env, s, sys))
  {
    if s.running && s.pc.At? {
      var k := s.pc.line;
      var i, next := instrs[k], s.(pc := After(instrs, k));
      assert i in instrs;
      OffMonotone(instrs, k, |instrs|);
      OffAfter(instrs, k);
      hide Linked, Apply, PushWord, PopWord, Off, PcOf, Flags;
      match i {
        case Two(alu, dst, src) => ApplyStack(next, alu, dst, Second(s, env, src));
        case Push(reg) => PushInBounds(next, GetReg(s, reg));
        case Pop(reg) => PopStack(next);
        case Ret => ShortRet(next);
        case _ =>
      }
    }
  }

  lemma OffAfter(instrs: seq<Instr>, k: nat)
    requires k < |instrs|
    ensures After(instrs, k).At? ==> Off(instrs, After(instrs, k).line) == Off(instrs, k) + Size(instrs[k])
  {
  }

  /** With less than two words on the stack a RET stops the machine. */
  lemma ShortRet(s: Sym)
    requires Sound(s) && StackOk(s) && s.regs[RSP] + 12 >= |s.mem|
    ensures !PopWord(s).0.running && PopWord(s).0.wild == s.wild && |PopWord(s).0.regs| == 16
  {
    hide Val;
  }

  lemma {:induction false} ShortRuns(instrs: seq<Instr>, env: map<string, nat>, s: Sym, sys: seq<nat>)
    requires Linked(instrs, env, s) && ValidPc(instrs, s.pc) && Words(sys)
    requires Disciplined(instrs) && Shallow(instrs, s) && s.codeSize < 5
    ensures !SymSteps(instrs, env, s, sys).wild
    decreases |sys|
  {
    if sys != [] {
      ShortStep(instrs, env, s, sys[0]);
      SymKeepsLinked(instrs, env, s, sys[0]);
      SameSizes(instrs, env, s, sys[0]);
      hide SymStep, Linked, Shallow;
      ShortRuns(instrs, env, SymStep(instrs, env, s, sys[0]), sys[1..]);
    }
  }

  // ---- A loop of calls ----

  /** "l: call l" and as many no-ops as it takes to fill `c` bytes. */
  function Loop(c: nat): (instrs: seq<Instr>)
    requires 5 <= c < 8
  {
    [Call("l")] + seq(c - 5, _ => Nop)
  }

  function LoopEnv(): map<string, nat> {
    map["l" := 0]
  }

  lemma LoopShape(c: nat)
    requires 5 <= c < 8
    ensures |Flat(Loop(c), LoopEnv())| == c && PcOf(Loop(c), 0) == At(0) && Disciplined(Loop(c))
    ensures Loop(c)[0] == Call("l") && LabelAddr(LoopEnv(), "l") == 0
  {
    var instrs := Loop(c);
    FlatLength(instrs, LoopEnv());
    OffsetIsLine(instrs, 0);
    LoopOffsets(c, |instrs|);
  }

  lemma {:induction false} LoopOffsets(c: nat, k: nat)
    requires 5 <= c < 8 && 1 <= k <= |Loop(c)|
    ensures Off(Loop(c), k) == 4 + k
    decreases k
  {
    if k > 1 { LoopOffsets(c, k - 1); } else { assert Off(Loop(c), 0) == 0; }
  }

  function Quiet(n: nat): (sys: seq<nat>)
    ensures |sys| == n && Words(sys)
  {
    seq(n, _ => 0)
  }

  /** The loop with `n` words of stack left above the lowest boundary `low`, which the test lets pass. */
  ghost predicate Looping(c: nat, s: Sym, low: nat, n: nat)
    requires 5 <= c < 8
  {
    && Linked(Loop(c), LoopEnv(), s) && s.pc == At(0) && s.running && !s.wild
    && s.codeSize + s.dataSize <= low < 8 && s.regs[RSP] == low + 8 * n && s.regs[RSP] <= |s.mem|
  }

  lemma LoopTurn(c: nat, s: Sym, low: nat, n: nat)
    requires 5 <= c < 8 && Looping(c, s, low, n)
    ensures var s' := SymStep(Loop(c), LoopEnv(), s, 0);
            if n == 0 then s'.wild else Looping(c, s', low, n - 1)
  {
    LoopShape(c);
    SymKeepsLinked(Loop(c), LoopEnv(), s, 0);
    Below8(s.regs[RSP]);
    hide Linked, Flat, PcOf, Patch, LE, Off, Loop;
  }

  lemma {:induction false} LoopRuns(c: nat, s: Sym, low: nat, n: nat)
    requires 5 <= c < 8 && Looping(c, s, low, n)
    ensures SymSteps(Loop(c), LoopEnv(), s, Quiet(n + 1)).wild
    decreases n
  {
    LoopTurn(c, s, low, n);
    hide SymStep, Linked, Loop;
    assert Quiet(n + 1)[1..] == Quiet(n);
    if n > 0 {
      LoopRuns(c, SymStep(Loop(c), LoopEnv(), s, 0), low, n - 1);
    }
  }

  // ---- Exactly the safe sizes ----

  /** Some disciplined program of these sizes, loaded and run, stores outside the machine's memory. */
  ghost predicate Overruns(code: nat, data: nat, bss: nat) {
    exists instrs, env, bytes, sys :: OverrunBy(instrs, env, bytes, sys, code, data, bss)
  }

  ghost predicate OverrunBy(instrs: seq<Instr>, env: map<string, nat>, bytes: seq<byte>, sys: seq<nat>,
                            code: nat, data: nat, bss: nat) {
    && |Flat(instrs, env)| == code && |bytes| == data && Disciplined(instrs) && Words(sys)
    && Linked(instrs, env, Start(instrs, env, bytes, bss))
    && SymSteps(instrs, env, Start(instrs, env, bytes, bss), sys).wild
  }

  lemma SafeRuns(instrs: seq<Instr>, env: map<string, nat>, bytes: seq<byte>, bss: nat, sys: seq<nat>)
    requires Linked(instrs, env, Start(instrs, env, bytes, bss)) && Words(sys) && Disciplined(instrs)
    requires SafeImage(|Flat(instrs, env)|, |bytes|, bss)
    ensures !SymSteps(instrs, env, Start(instrs, env, bytes, bss), sys).wild
  {
    var s := Start(instrs, env, bytes, bss);
    StartSafe(instrs, env, bytes, bss);
    FlatLength(instrs, env);
    OffsetIsLine(instrs, 0);
    hide Linked, Flat, PcOf;
    if |Flat(instrs, env)| < 5 {
      ShortRuns(instrs, env, s, sys);
    } else {
      StackMod(|Flat(instrs, env)| + |bytes| + bss);
      RunSafe(instrs, env, s, sys);
    }
  }

  lemma StackMod(n: nat)
    ensures (n + STACK) % 8 == n % 8
  {
  }

  /** Stack safety, exactly: for images of these sizes no disciplined program overruns its memory if and only
      if the image is safe. */
  lemma SafeSizes(code: nat, data: nat, bss: nat)
    requires code < 0x1_0000 && data < 0x1_0000 && bss < 0x1_0000
    ensures SafeImage(code, data, bss) <==> !Overruns(code, data, bss)
  {
    if SafeImage(code, data, bss) {
      forall instrs, env, bytes, sys | OverrunBy(instrs, env, bytes, sys, code, data, bss)
        ensures false
      {
        SafeRuns(instrs, env, bytes, bss, sys);
      }
    } else {
      UnsafeLoop(code, data, bss);
    }
  }

  lemma UnsafeLoop(code: nat, data: nat, bss: nat)
    requires code < 0x1_0000 && data < 0x1_0000 && bss < 0x1_0000 && !SafeImage(code, data, bss)
    ensures Overruns(code, data, bss)
  {
    LoopShape(code);
    StartLinked(Loop(code), LoopEnv(), Zeros(data), bss);
    StartSafe(Loop(code), LoopEnv(), Zeros(data), bss);
    var s := Start(Loop(code), LoopEnv(), Zeros(data), bss);
    var total := code + data + bss + STACK;
    StackMod(code + data + bss);
    hide Linked, Flat, PcOf, Loop, Disciplined;
    assert s.regs[RSP] == total == |s.mem|;
    LoopRuns(code, s, total % 8, total / 8);
    assert OverrunBy(Loop(code), LoopEnv(), Zeros(data), Quiet(total / 8 + 1), code, data, bss);
  }

  // ---- The whole way ----

  /** A program that fits, names only defined labels and never writes rsp itself, assembled and loaded: on
      every run that stays on lines the VM does exactly what the lines say, makes no store outside its
      memory and leaves its code and data as loaded. */
  lemma AssembledRuns(stmts: seq<Statement>, sys: seq<nat>)
    requires Parsed(stmts).Some? && Fits(Parsed(stmts).value) && Words(sys)
    requires AllDefined(Program(stmts), Env(Parsed(stmts).value)) && Disciplined(Program(stmts))
    requires var a := Parsed(stmts).value; SafeImage(|a.code|, |a.data|, a.bssSize)
    requires var a := Parsed(stmts).value;
             var s := Start(Program(stmts), Env(a), a.data, a.bssSize);
             Linked(Program(stmts), Env(a), s) ==> NeverStrays(Program(stmts), Env(a), s, sys)
    ensures InCode(Parsed(stmts).value.refs, |Parsed(stmts).value.code|)
    ensures var a, instrs := Parsed(stmts).value, Program(stmts);
            var s := Start(instrs, Env(a), a.data, a.bssSize);
            && Linked(instrs, Env(a), s)
            && Resolve(a).Some? && Image(Resolve(a).value).Some?
            && var file := Image(Resolve(a).value).value;
            && Load(file).Loaded? && Sound(Load(file).vm)
            && var vm := Steps(Load(file).vm, sys);
            && vm == Lower(instrs, SymSteps(instrs, Env(a), s, sys))
            && !vm.wild && SameImage(Load(file).vm, vm)
  {
    var a, instrs := Parsed(stmts).value, Program(stmts);
    hide *;
    ProgramLegal(instrs);
    AssembledLoads(stmts);
    var s := Start(instrs, Env(a), a.data, a.bssSize);
    RunSimulates(instrs, Env(a), s, sys);
    StepsKeepImage(Lower(instrs, s), sys);
    CodeSize(stmts);
    SafeRuns(instrs, Env(a), a.data, a.bssSize, sys);
    LoweredWild(instrs, SymSteps(instrs, Env(a), s, sys));
  }

  lemma ProgramLegal(instrs: seq<Instr>)
    requires Disciplined(instrs)
    ensures forall i :: i in instrs ==> Legal(i)
  {
  }

  lemma StartSafe(instrs: seq<Instr>, env: map<string, nat>, data: seq<byte>, bssSize: nat)
    ensures var s := Start(instrs, env, data, bssSize);
            |s.regs| == 16 && Safe(s) && s.codeSize == |Flat(instrs, env)| && s.dataSize == |data|
  {
    hide Flat, PcOf;
  }

  lemma LoweredWild(instrs: seq<Instr>, s: Sym)
    requires ValidPc(instrs, s.pc) && !s.wild
    ensures !Lower(instrs, s).wild
  {
  }
}
