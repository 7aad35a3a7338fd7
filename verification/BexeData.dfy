/** What an assembled program finds in memory: the bytes of its data directives behind their labels. */
module BexeData {
  import opened Options
  import opened Bytes
  import opened BexeCode
  import opened BexeAsm
  import opened BexeVm
  import opened BexeSim
  import opened BexeRun

  /** The `i`-th byte of a number in two's complement, lowest first. */
  function ByteOf(v: int, i: nat): int
    decreases i
  {
    if i == 0 then v % 0x100 else ByteOf(v / 0x100, i - 1)
  }

  lemma {:induction false} ElementBytes(width: nat, v: int, i: nat)
    requires i < width
    ensures Element(width, v)[i] == ByteOf(v, i)
    decreases width
  {
    var p := Pow256(width - 1);
    LowByte(v, p);
    assert Pow256(width) == 0x100 * p;
    assert Element(width, v) == [v % Pow256(width) % 0x100] + LE(width - 1, v % Pow256(width) / 0x100);
    assert LE(width - 1, v / 0x100 % p) == Element(width - 1, v / 0x100);
    hide Element, LE, Pow256;
    if i > 0 { ElementBytes(width - 1, v / 0x100, i - 1); }
  }

  lemma LowByte(v: int, p: nat)
    requires p > 0
    ensures v % (0x100 * p) % 0x100 == v % 0x100 && v % (0x100 * p) / 0x100 == v / 0x100 % p
  {
    var q, r := v / 0x100 / p, v / 0x100 % p;
    var low := v % 0x100;
    assert v == 0x100 * (v / 0x100) + low && v / 0x100 == p * q + r;
    var m := 0x100 * p;
    assert v == m * q + (0x100 * r + low) by { assert 0x100 * (p * q) == m * q; }
    assert 0 <= 0x100 * r + low < m;
    Remainder(v, m, q, 0x100 * r + low);
  }

  lemma Remainder(v: int, m: nat, q: int, r: int)
    requires v == m * q + r && 0 <= r < m
    ensures v % m == r
  {
    var q', r' := v / m, v % m;
    assert v == m * q' + r';
    if q < q' { MulAtMost(q + 1, q', m); }
    if q' < q { MulAtMost(q' + 1, q, m); }
  }

  // ---- Sections grow by their directives ----

  predicate Defines(st: Statement) {
    st.DefineString? || st.Define?
  }

  /** How many bytes a line adds to the data section. */
  function DataBytes(st: Statement): nat {
    match st
    case DefineString(bytes) => |bytes|
    case Define(width, _) => width
    case _ => 0
  }

  function BssBytes(st: Statement): nat {
    if st.Reserve? then st.count * st.width else 0
  }

  function DataLength(stmts: seq<Statement>): nat {
    if stmts == [] then 0 else DataLength(stmts[..|stmts| - 1]) + DataBytes(stmts[|stmts| - 1])
  }

  function BssLength(stmts: seq<Statement>): nat {
    if stmts == [] then 0 else BssLength(stmts[..|stmts| - 1]) + BssBytes(stmts[|stmts| - 1])
  }

  /** `data` holds at `at` what the directive defines: the string's bytes, or the value's low bytes, lowest
      first. */
  ghost predicate HoldsAt(data: seq<byte>, at: nat, st: Statement)
    requires Defines(st)
  {
    && at + DataBytes(st) <= |data|
    && (st.DefineString? ==> data[at..at + |st.bytes|] == st.bytes)
    && (st.Define? ==> forall i :: 0 <= i < st.width ==> data[at + i] == ByteOf(st.value, i))
  }

  lemma FedData(a: Asm, st: Statement)
    requires Feed(a, st).Some?
    ensures var a' := Feed(a, st).value;
            && |a'.data| == |a.data| + DataBytes(st) && a'.bssSize == a.bssSize + BssBytes(st)
            && (Defines(st) ==> HoldsAt(a'.data, |a.data|, st))
            && (Defines(st) || st.Reserve? ==> a.section != Text)
            && (!Defines(st) ==> a'.data == a.data)
  {
    hide Encode, RefsOf, LE, Pow256;
    if st.Define? {
      forall i | 0 <= i < st.width
        ensures Element(st.width, st.value)[i] == ByteOf(st.value, i)
      {
        ElementBytes(st.width, st.value, i);
      }
    }
  }

  /** The lengths of the data and bss sections are those of their directives together. */
  lemma {:induction false} SectionSizes(stmts: seq<Statement>)
    requires Parsed(stmts).Some?
    ensures |Parsed(stmts).value.data| == DataLength(stmts) && Parsed(stmts).value.bssSize == BssLength(stmts)
    decreases |stmts|
  {
    if stmts != [] {
      LastParsed(stmts);
      SectionSizes(stmts[..|stmts| - 1]);
      FedData(Parsed(stmts[..|stmts| - 1]).value, stmts[|stmts| - 1]);
      hide Feed, Parsed;
    }
  }

  /** Every data directive is in the final data section, behind everything defined before it. */
  lemma DirectiveHeld(stmts: seq<Statement>, n: nat)
    requires Parsed(stmts).Some? && n < |stmts| && Defines(stmts[n])
    ensures HoldsAt(Parsed(stmts).value.data, DataLength(stmts[..n]), stmts[n])
    ensures SectionAfter(stmts[..n]) != Text
  {
    hide *;
    DirectiveFed(stmts, n);
    ParsedPrefix(stmts, n + 1);
    DataGrows(Parsed(stmts[..n + 1]).value, Parsed(stmts).value);
    HeldOn(Parsed(stmts[..n + 1]).value.data, Parsed(stmts).value.data, DataLength(stmts[..n]), stmts[n]);
  }

  lemma DirectiveFed(stmts: seq<Statement>, n: nat)
    requires Parsed(stmts).Some? && n < |stmts| && Defines(stmts[n])
    ensures Parsed(stmts[..n + 1]).Some? && SectionAfter(stmts[..n]) != Text
    ensures HoldsAt(Parsed(stmts[..n + 1]).value.data, DataLength(stmts[..n]), stmts[n])
  {
    hide *;
    ParsedPrefix(stmts, n);
    ParsedPrefix(stmts, n + 1);
    FedLast(stmts, n);
    ParsedBuilt(stmts[..n]);
    SectionSizes(stmts[..n]);
    FedData(Parsed(stmts[..n]).value, stmts[n]);
  }

  lemma FedLast(stmts: seq<Statement>, n: nat)
    requires n < |stmts| && Parsed(stmts[..n + 1]).Some?
    ensures Parsed(stmts[..n]).Some? && Parsed(stmts[..n + 1]) == Feed(Parsed(stmts[..n]).value, stmts[n])
  {
    var first := stmts[..n + 1];
    assert first[..n] == stmts[..n] && first[n] == stmts[n] && |first| == n + 1;
    hide *;
    LastParsed(first);
  }

  lemma DataGrows(a: Asm, a': Asm)
    requires Grows(a, a')
    ensures a.data <= a'.data
  {
  }

  lemma HeldOn(data: seq<byte>, data': seq<byte>, at: nat, st: Statement)
    requires Defines(st) && HoldsAt(data, at, st) && data <= data'
    ensures HoldsAt(data', at, st)
  {
    hide ByteOf;
    assert data'[..|data|] == data;
  }

  // ---- Which lines are accepted ----

  /** Which section line `n` is in: that of the last section directive before it, text without one. */
  ghost predicate InSection(stmts: seq<Statement>, n: nat, section: Section)
    requires n <= |stmts|
  {
    || (section == Text && forall l :: 0 <= l < n ==> !stmts[l].SetSection?)
    || exists m :: 0 <= m < n && stmts[m] == SetSection(section) && forall l :: m < l < n ==> !stmts[l].SetSection?
  }

  lemma {:induction false} SectionIs(stmts: seq<Statement>, n: nat)
    requires n <= |stmts|
    ensures InSection(stmts, n, SectionAfter(stmts[..n]))
    decreases n
  {
    if n > 0 {
      var front := stmts[..n];
      assert front[..n - 1] == stmts[..n - 1];
      if stmts[n - 1].SetSection? {
        assert stmts[n - 1] == SetSection(stmts[n - 1].section);
      } else {
        SectionIs(stmts, n - 1);
      }
    }
  }

  /** What may stand in a section: instructions in text, and elsewhere only those without operands; data
      outside text; reservations in bss. Elements have 1, 2, 4 or 8 bytes. */
  predicate Accepted(section: Section, st: Statement) {
    match st
    case SetSection(_) => true
    case LabelHere(_) => true
    case Code(i) => section == Text || i == Ret || i == Hlt || i == Nop || i == Syscall
    case DefineString(_) => section == Data || section == Bss
    case Define(width, _) => (section == Data || section == Bss) && (width == 1 || width == 2 || width == 4 || width == 8)
    case Reserve(width, _) => section == Bss && (width == 1 || width == 2 || width == 4 || width == 8)
  }

  lemma FedExactly(a: Asm, st: Statement)
    ensures Feed(a, st).Some? <==> Accepted(a.section, st)
  {
  }

  /** The first `k` lines may stand where they stand. */
  ghost predicate AllAccepted(stmts: seq<Statement>, k: nat)
    requires k <= |stmts|
  {
    forall n :: 0 <= n < k ==> Accepted(SectionAfter(stmts[..n]), stmts[n])
  }

  lemma {:induction false} ParsedUpTo(stmts: seq<Statement>, k: nat)
    requires k <= |stmts|
    ensures Parsed(stmts[..k]).Some? <==> AllAccepted(stmts, k)
    decreases k
  {
    if k > 0 {
      ParsedUpTo(stmts, k - 1);
      ParsedOneMore(stmts, k);
      hide Accepted, SectionAfter, Parsed;
    }
  }

  lemma ParsedOneMore(stmts: seq<Statement>, k: nat)
    requires 0 < k <= |stmts|
    ensures Parsed(stmts[..k]).Some? <==>
              Parsed(stmts[..k - 1]).Some? && Accepted(SectionAfter(stmts[..k - 1]), stmts[k - 1])
  {
    assert stmts[..k][..k - 1] == stmts[..k - 1] && stmts[..k][k - 1] == stmts[k - 1];
    if Parsed(stmts[..k - 1]).Some? {
      ParsedBuilt(stmts[..k - 1]);
      FedExactly(Parsed(stmts[..k - 1]).value, stmts[k - 1]);
    }
    hide Feed, Accepted, SectionAfter, Built;
  }

  /** A file is accepted exactly when each of its lines may stand where it stands. */
  lemma ParsedExactly(stmts: seq<Statement>)
    ensures Parsed(stmts).Some? <==> forall n :: 0 <= n < |stmts| ==> Accepted(SectionAfter(stmts[..n]), stmts[n])
  {
    ParsedUpTo(stmts, |stmts|);
    assert stmts[..|stmts|] == stmts;
    hide Parsed, Accepted, SectionAfter;
  }

  // ---- In the machine ----

  /** After loading, the directive `m` lies in memory at the address of any data label before it plus the
      bytes defined in between. */
  lemma LoadedData(stmts: seq<Statement>, n: nat, m: nat, l: string)
    requires Parsed(stmts).Some? && Fits(Parsed(stmts).value)
    requires AllDefined(Program(stmts), Env(Parsed(stmts).value)) && forall i :: i in Program(stmts) ==> Legal(i)
    requires n < m < |stmts| && stmts[n] == LabelHere(l) && LabelHere(l) !in stmts[n + 1..] && Defines(stmts[m])
    requires SectionAfter(stmts[..n]) == Data && l !in Parsed(stmts).value.labels
    ensures InCode(Parsed(stmts).value.refs, |Parsed(stmts).value.code|)
    ensures var a := Parsed(stmts).value;
            && Resolve(a).Some? && Image(Resolve(a).value).Some? && Load(Image(Resolve(a).value).value).Loaded?
            && l in Env(a) && DataLength(stmts[..n]) <= DataLength(stmts[..m])
            && HoldsAt(Load(Image(Resolve(a).value).value).vm.mem,
                       Env(a)[l] + (DataLength(stmts[..m]) - DataLength(stmts[..n])), stmts[m])
  {
    hide *;
    var a, instrs := Parsed(stmts).value, Program(stmts);
    AssembledLoads(stmts);
    CodeSize(stmts);
    DirectiveHeld(stmts, m);
    ParsedPrefix(stmts, n);
    ParsedBuilt(stmts[..n]);
    LabelMeaning(stmts, n, l);
    EnvIs(a, l);
    PrefixGrows(stmts, n, m);
    SectionSizes(stmts[..n]);
    var s := Start(instrs, Env(a), a.data, a.bssSize);
    MemoryParts(instrs, Env(a), a.data, a.bssSize);
    HeldBehind(Flat(instrs, Env(a)), a.data, Zeros(a.bssSize + STACK), DataLength(stmts[..m]), stmts[m]);
  }

  lemma EnvIs(a: Asm, l: string)
    requires Address(a, l).Some?
    ensures l in Env(a) && Env(a)[l] == Address(a, l).value
  {
  }

  lemma {:induction false} PrefixGrows(stmts: seq<Statement>, n: nat, m: nat)
    requires n <= m <= |stmts|
    ensures DataLength(stmts[..n]) <= DataLength(stmts[..m])
    decreases m
  {
    if n < m {
      assert stmts[..m][..m - 1] == stmts[..m - 1];
      PrefixGrows(stmts, n, m - 1);
    }
  }

  lemma MemoryParts(instrs: seq<Instr>, env: map<string, nat>, data: seq<byte>, bssSize: nat)
    ensures var s := Start(instrs, env, data, bssSize);
            && ValidPc(instrs, s.pc)
            && Lower(instrs, s).mem == Flat(instrs, env) + data + Zeros(bssSize + STACK)
  {
    hide Flat, PcOf, Zeros;
  }

  lemma HeldBehind(code: seq<byte>, data: seq<byte>, rest: seq<byte>, at: nat, st: Statement)
    requires Defines(st) && HoldsAt(data, at, st)
    ensures HoldsAt(code + data + rest, |code| + at, st)
  {
    hide ByteOf;
    var mem := code + data + rest;
    assert forall i :: 0 <= i < |data| ==> mem[|code| + i] == data[i];
    if st.DefineString? {
      assert mem[|code| + at..|code| + at + |st.bytes|] == data[at..at + |st.bytes|];
    }
  }

  /** A bss label names zeroed memory: all that is reserved from it on. */
  lemma LoadedBss(stmts: seq<Statement>, n: nat, l: string)
    requires Parsed(stmts).Some? && Fits(Parsed(stmts).value)
    requires AllDefined(Program(stmts), Env(Parsed(stmts).value)) && forall i :: i in Program(stmts) ==> Legal(i)
    requires n < |stmts| && stmts[n] == LabelHere(l) && LabelHere(l) !in stmts[n + 1..] && SectionAfter(stmts[..n]) == Bss
    requires l !in Parsed(stmts).value.labels && l !in Parsed(stmts).value.dataLabels
    ensures InCode(Parsed(stmts).value.refs, |Parsed(stmts).value.code|)
    ensures var a := Parsed(stmts).value;
            && Resolve(a).Some? && Image(Resolve(a).value).Some? && Load(Image(Resolve(a).value).value).Loaded?
            && l in Env(a) && BssLength(stmts[..n]) <= BssLength(stmts)
            && var mem := Load(Image(Resolve(a).value).value).vm.mem;
               && Env(a)[l] + (BssLength(stmts) - BssLength(stmts[..n])) + 0x1_0000 == |mem|
               && forall i :: Env(a)[l] <= i < |mem| ==> mem[i] == 0
  {
    hide *;
    var a, instrs := Parsed(stmts).value, Program(stmts);
    AssembledLoads(stmts);
    CodeSize(stmts);
    ParsedPrefix(stmts, n);
    ParsedBuilt(stmts[..n]);
    LabelMeaning(stmts, n, l);
    EnvIs(a, l);
    SectionSizes(stmts[..n]);
    SectionSizes(stmts);
    MemoryParts(instrs, Env(a), a.data, a.bssSize);
    ZeroTail(Flat(instrs, Env(a)) + a.data, a.bssSize, Env(a)[l]);
  }

  lemma ZeroTail(front: seq<byte>, bssSize: nat, at: nat)
    requires at >= |front|
    ensures var mem := front + Zeros(bssSize + STACK);
            |mem| == |front| + bssSize + 0x1_0000 && forall i :: at <= i < |mem| ==> mem[i] == 0
  {
  }

  // ---- The file ----

  /** The first bytes of the file: "EXEB" read as bytes, and the three sizes, 16 bits each, lowest byte first. */
  lemma HeaderBytes(a: Asm)
    requires Fits(a)
    ensures var f := Image(a).value;
            && |f| == 10 + |a.code| + |a.data|
            && f[..4] == [0x45, 0x58, 0x45, 0x42]
            && f[4] as nat + 0x100 * f[5] as nat == |a.code|
            && f[6] as nat + 0x100 * f[7] as nat == |a.data|
            && f[8] as nat + 0x100 * f[9] as nat == a.bssSize
            && f[10..10 + |a.code|] == a.code && f[10 + |a.code|..] == a.data
  {
    var f := Image(a).value;
    assert LE(4, MAGIC) == [0x45, 0x58, 0x45, 0x42];
    TwoBytes(|a.code|);
    TwoBytes(|a.data|);
    TwoBytes(a.bssSize);
    hide LE;
    assert f == LE(4, MAGIC) + LE(2, |a.code|) + LE(2, |a.data|) + LE(2, a.bssSize) + a.code + a.data;
    assert f[4] == LE(2, |a.code|)[0] && f[5] == LE(2, |a.code|)[1];
    assert f[6] == LE(2, |a.data|)[0] && f[7] == LE(2, |a.data|)[1];
    assert f[8] == LE(2, a.bssSize)[0] && f[9] == LE(2, a.bssSize)[1];
  }

  /** Only sizes of 65536 and more are refused. */
  lemma ImageRefused(a: Asm)
    ensures Image(a) == None <==> |a.code| >= 0x1_0000 || |a.data| >= 0x1_0000 || a.bssSize >= 0x1_0000
  {
  }

  /** The machine a file is loaded as: `code` and `data` bytes of the file, then zeros for `bss` bytes and 64
      KiB of stack, rsp and rbp at the end and everything else zero. */
  ghost predicate LoadedAs(vm: Vm, file: seq<byte>, code: nat, data: nat, bss: nat) {
    && 10 + code + data <= |file|
    && vm.pc == 0 && vm.running && !vm.wild && vm.flags == 0 && vm.codeSize == code && vm.dataSize == data
    && |vm.mem| == code + data + bss + 0x1_0000
    && vm.mem[..code + data] == file[10..10 + code + data]
    && (forall i :: code + data <= i < |vm.mem| ==> vm.mem[i] == 0)
    && |vm.regs| == 16 && forall r :: 0 <= r < 16 ==> vm.regs[r] == if r == 4 || r == 5 then |vm.mem| else 0
  }

  /** What the loader does with any file. */
  lemma LoadMeans(file: seq<byte>)
    ensures Load(file) == Rejected <==> |file| < 10 || file[..4] != [0x45, 0x58, 0x45, 0x42]
    ensures Load(file) != Rejected ==>
              var code, data := file[4] as nat + 0x100 * file[5] as nat, file[6] as nat + 0x100 * file[7] as nat;
              var bss := file[8] as nat + 0x100 * file[9] as nat;
              && (Load(file) == PastEnd <==> 10 + code + data > |file|)
              && (Load(file).Loaded? ==> LoadedAs(Load(file).vm, file, code, data, bss))
  {
    if |file| >= 10 {
      MagicBytes(file[..4]);
      Word16(file, 4);
      Word16(file, 6);
      Word16(file, 8);
      hide Val;
    }
  }

  lemma Word16(file: seq<byte>, at: nat)
    requires at + 2 <= |file|
    ensures Val(file[at..at + 2]) == file[at] as nat + 0x100 * file[at + 1] as nat
  {
    var s := file[at..at + 2];
    assert s[1..] == [file[at + 1]] && s[1..][1..] == [];
    assert Val(s[1..]) == file[at + 1] as int + 0x100 * Val(s[1..][1..]);
  }

  lemma MagicBytes(s: seq<byte>)
    requires |s| == 4
    ensures Val(s) == MAGIC <==> s == [0x45, 0x58, 0x45, 0x42]
  {
    assert s == [s[0], s[1], s[2], s[3]];
    assert s[1..] == [s[1], s[2], s[3]] && s[1..][1..] == [s[2], s[3]] && s[1..][1..][1..] == [s[3]] && s[1..][1..][1..][1..] == [];
    assert Val(s) == s[0] as int + 0x100 * Val(s[1..]);
    assert Val(s[1..]) == s[1] as int + 0x100 * Val(s[1..][1..]);
    assert Val(s[1..][1..]) == s[2] as int + 0x100 * Val(s[1..][1..][1..]);
    assert Val(s[1..][1..][1..]) == s[3] as int + 0x100 * Val(s[1..][1..][1..][1..]);
    FourDigits(s[0], s[1], s[2], s[3]);
  }

  lemma FourDigits(a: byte, b: byte, c: byte, d: byte)
    ensures a as int + 0x100 * (b as int + 0x100 * (c as int + 0x100 * d as int)) == 0x4245_5845
            <==> a == 0x45 && b == 0x58 && c == 0x45 && d == 0x42
  {
  }

  /** A system call line in memory: its byte 0x50 and the number behind it, 0x80 when none is written. */
  lemma SystemCallBytes(instrs: seq<Instr>, env: map<string, nat>, s: Sym, k: nat)
    requires Linked(instrs, env, s) && k < |instrs| && (instrs[k].Interrupt? || instrs[k].Syscall?)
    ensures Off(instrs, k) + 2 <= s.codeSize <= |s.mem| && s.mem[Off(instrs, k)] == 0x50
    ensures s.mem[Off(instrs, k) + 1] == if instrs[k].Syscall? then 0x80 else instrs[k].n % 0x100
  {
    hide *;
    FlatAt(instrs, env, k);
    CodeOf(instrs, env, s);
    SystemEncoding(instrs[k], env);
    TwoAt(s.mem, s.codeSize, Off(instrs, k), Encode(instrs[k], env));
  }

  lemma CodeOf(instrs: seq<Instr>, env: map<string, nat>, s: Sym)
    requires Linked(instrs, env, s)
    ensures s.codeSize <= |s.mem| && s.mem[..s.codeSize] == Flat(instrs, env)
  {
    hide Legal, Flat, Off;
  }

  lemma SystemEncoding(i: Instr, env: map<string, nat>)
    requires i.Interrupt? || i.Syscall?
    ensures Size(i) == 2 && Encode(i, env) == [0x50, if i.Syscall? then 0x80 else i.n % 0x100]
  {
  }

  lemma TwoAt(mem: seq<byte>, n: nat, o: nat, e: seq<byte>)
    requires o + 2 <= n <= |mem| && |e| == 2 && mem[..n][o..o + 2] == e
    ensures mem[o] == e[0] && mem[o + 1] == e[1]
  {
    assert mem[..n][o..o + 2][0] == mem[o] && mem[..n][o..o + 2][1] == mem[o + 1];
  }

  lemma TwoBytes(v: nat)
    requires v < 0x1_0000
    ensures LE(2, v) == [v % 0x100, v / 0x100]
  {
    assert LE(1, v / 0x100) == [v / 0x100];
  }
}
