/** Loading an assembled image, and what its runs do with the stack. */
module BexeRun {
  import opened Bytes
  import opened BexeCode
  import opened BexeAsm
  import opened BexeVm
  import opened BexeSim

  // ---- Loading ----

  /** `PastEnd`: the header promises more bytes than the file has, and the loader reads beyond its buffer. */
  datatype LoadResult = Rejected | PastEnd | Loaded(vm: Vm)

  /** bexe_load on the bytes of the file. */
  function Load(file: seq<byte>): LoadResult {
    if |file| < 10 || Val(file[..4]) != MAGIC then Rejected
    else
      var codeSize, dataSize, bssSize := Val(file[4..6]), Val(file[6..8]), Val(file[8..10]);
      if 10 + codeSize + dataSize > |file| then PastEnd
      else
        var total := codeSize + dataSize + bssSize + STACK;
        Loaded(Machine(0, file[10..10 + codeSize + dataSize] + Zeros(bssSize + STACK), codeSize, dataSize,
                       Registers(total), 0, true, false))
  }

  /** All registers zero but rsp and rbp, which hold the top of memory. */
  function Registers(top: nat): (regs: seq<nat>)
    ensures |regs| == 16
  {
    seq(16, _ => 0)[RSP := top][RBP := top]
  }

  /** Loading the written image gives code ++ data ++ zeros for bss and stack, control at the first byte
      and the stack empty. */
  lemma LoadImage(a: Asm)
    requires Fits(a)
    ensures Load(Image(a).value)
            == var total := |a.code| + |a.data| + a.bssSize + STACK;
               Loaded(Machine(0, a.code + a.data + Zeros(a.bssSize + STACK), |a.code|, |a.data|,
                              Registers(total), 0, true, false))
  {
    hide LE, Val, Zeros, Registers;
    Pow4();
    Pow2();
    ValOfLE(4, MAGIC);
    ValOfLE(2, |a.code|);
    ValOfLE(2, |a.data|);
    ValOfLE(2, a.bssSize);
    ImageParts(LE(4, MAGIC), LE(2, |a.code|), LE(2, |a.data|), LE(2, a.bssSize), a.code, a.data);
  }

  lemma Pow2()
    ensures Pow256(2) == 0x1_0000
  {
    assert Pow256(1) == 0x100;
  }

  lemma ImageParts(m: seq<byte>, c: seq<byte>, d: seq<byte>, b: seq<byte>, code: seq<byte>, data: seq<byte>)
    requires |m| == 4 && |c| == |d| == |b| == 2
    ensures var file := m + c + d + b + code + data;
            && file[..4] == m && file[4..6] == c && file[6..8] == d && file[8..10] == b
            && file[10..10 + |code| + |data|] == code + data && |file| == 10 + |code| + |data|
  {
  }

  /** The state of a program before its first line. */
  function Start(instrs: seq<Instr>, env: map<string, nat>, data: seq<byte>, bssSize: nat): (s: Sym)
    ensures ValidPc(instrs, s.pc) && AddrOf(instrs, s.pc) == 0
  {
    var code := Flat(instrs, env);
    var total := |code| + |data| + bssSize + STACK;
    Machine(PcOf(instrs, 0), code + data + Zeros(bssSize + STACK), |code|, |data|, Registers(total), 0, true, false)
  }

  /** From source lines to a loaded machine: assembling, resolving, writing and loading gives a machine
      that holds the linked program and stands at its first line. */
  lemma AssembledLoads(stmts: seq<Statement>)
    requires Parsed(stmts).Some? && Fits(Parsed(stmts).value)
    requires AllDefined(Program(stmts), Env(Parsed(stmts).value))
    requires forall i :: i in Program(stmts) ==> Legal(i)
    ensures InCode(Parsed(stmts).value.refs, |Parsed(stmts).value.code|)
    ensures var a, instrs := Parsed(stmts).value, Program(stmts);
            var s := Start(instrs, Env(a), a.data, a.bssSize);
            && Resolve(a).Some? && Image(Resolve(a).value).Some?
            && Load(Image(Resolve(a).value).value) == Loaded(Lower(instrs, s))
            && Linked(instrs, Env(a), s) && !s.pc.Inside?
  {
    hide *;
    var a, instrs := Parsed(stmts).value, Program(stmts);
    ParsedLinks(stmts);
    CodeSize(stmts);
    var linked := a.(code := Flat(instrs, Env(a)));
    LinkedFits(a, linked.code);
    LoadImage(linked);
    LoweredStart(instrs, Env(a), a.data, a.bssSize);
    StartLinked(instrs, Env(a), a.data, a.bssSize);
  }

  lemma CodeSize(stmts: seq<Statement>)
    requires Parsed(stmts).Some?
    ensures |Parsed(stmts).value.code| == |Flat(Program(stmts), Env(Parsed(stmts).value))|
  {
    ParsedBuilt(stmts);
    FlatLength(Program(stmts), map[]);
    FlatLength(Program(stmts), Env(Parsed(stmts).value));
  }

  lemma LinkedFits(a: Asm, code: seq<byte>)
    requires Fits(a) && |code| == |a.code|
    ensures Fits(a.(code := code)) && Image(a.(code := code)).Some?
    ensures |code| < 0x1_0000 && |a.data| < 0x1_0000 && a.bssSize < 0x1_0000
  {
  }

  lemma LoweredStart(instrs: seq<Instr>, env: map<string, nat>, data: seq<byte>, bssSize: nat)
    ensures var s := Start(instrs, env, data, bssSize);
            var code := Flat(instrs, env);
            && ValidPc(instrs, s.pc) && !s.pc.Inside?
            && Lower(instrs, s) == Machine(0, code + data + Zeros(bssSize + STACK), |code|, |data|,
                                           Registers(|code| + |data| + bssSize + STACK), 0, true, false)
  {
    OffsetIsLine(instrs, 0);
    hide Flat, PcOf, Registers, Zeros;
  }

  lemma StartLinked(instrs: seq<Instr>, env: map<string, nat>, data: seq<byte>, bssSize: nat)
    requires |Flat(instrs, env)| < 0x1_0000 && |data| < 0x1_0000 && bssSize < 0x1_0000
    requires forall i :: i in instrs ==> Legal(i)
    ensures Linked(instrs, env, Start(instrs, env, data, bssSize))
  {
    FlatLength(instrs, env);
    hide Flat, Off, PcOf, Legal;
  }
}
