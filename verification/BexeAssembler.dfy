/** The Assembler object: byte arrays and label tables that grow line by line. */
module BexeAssembler {
  import opened Options
  import opened Bytes
  import opened BexeCode
  import opened BexeAsm

  class Assembler {
    var code: seq<byte>
    var data: seq<byte>
    var bssSize: nat
    var labels: map<string, nat>
    var dataLabels: map<string, nat>
    var bssLabels: map<string, nat>
    var unresolvedRefs: seq<Ref>
    var currentSection: Section

    ghost function State(): Asm
      reads this
    {
      Asm(code, data, bssSize, labels, dataLabels, bssLabels, unresolvedRefs, currentSection)
    }

    constructor ()
      ensures State() == Empty()
    {
      code, data, bssSize := [], [], 0;
      labels, dataLabels, bssLabels := map[], map[], map[];
      unresolvedRefs := [];
      currentSection := Text;
    }

    /** An empty four-byte slot for a label's address. */
    method Reserve4(name: string)
      modifies `code, `unresolvedRefs
      ensures code == old(code) + Slot(map[], name)
      ensures unresolvedRefs == old(unresolvedRefs) + [Ref(|old(code)|, name)]
    {
      unresolvedRefs := unresolvedRefs + [Ref(|code|, name)];
      code := code + [0, 0, 0, 0];
      assert LE(4, 0) == [0, 0, 0, 0];
    }

    method EncodeTwoOperandInstruction(alu: Alu, dst: byte, src: Operand)
      modifies `code, `unresolvedRefs
      ensures code == old(code) + Encode(Two(alu, dst, src), map[])
      ensures unresolvedRefs == old(unresolvedRefs) + RefsOf(Two(alu, dst, src), |old(code)|)
    {
      hide LE, AluOpcode, Slot;
      code := code + [AluOpcode(alu)];
      code := code + [dst];
      match src {
        case Register(r) =>
          code := code + [0x00];
          code := code + [r];
        case Number(n) =>
          code := code + [0x01];
          code := code + LE(4, n % U32_SIZE);
        case Symbol(name) =>
          code := code + [0x01];
          Reserve4(name);
      }
    }

    /** A jump or call, whose one operand is a label. */
    method EncodeJump(i: Instr)
      requires i.Jump? || i.Call?
      modifies `code, `unresolvedRefs
      ensures code == old(code) + Encode(i, map[])
      ensures unresolvedRefs == old(unresolvedRefs) + RefsOf(i, |old(code)|)
    {
      hide LE, JumpOpcode, Slot;
      code := code + [if i.Call? then 0x30 else JumpOpcode(i.cond)];
      Reserve4(i.target);
    }

    method EncodeInstruction(i: Instr)
      modifies `code, `unresolvedRefs
      ensures code == old(code) + Encode(i, map[])
      ensures unresolvedRefs == old(unresolvedRefs) + RefsOf(i, |old(code)|)
    {
      match i {
        case Two(alu, dst, src) => EncodeTwoOperandInstruction(alu, dst, src);
        case Jump(_, _) => EncodeJump(i);
        case Call(_) => EncodeJump(i);
        case Push(reg) => code := code + [0x20, reg];
        case Pop(reg) => code := code + [0x21, reg];
        case Interrupt(n) => code := code + [0x50, n % 0x100];
        case Syscall => code := code + [0x50, 0x80];
        case Ret => code := code + [0x31];
        case Hlt => code := code + [0x40];
        case Nop => code := code + [0x90];
      }
    }

    /** parse_data_directive on one operand. */
    method ParseDataDirective(st: Statement) returns (ok: bool)
      requires st.Define? || st.DefineString? || st.Reserve?
      requires currentSection != Text
      modifies `data, `bssSize
      ensures ok == Feed(old(State()), st).Some?
      ensures State() == if ok then Feed(old(State()), st).value else old(State())
    {
      match st {
        case Reserve(width, count) =>
          if currentSection != Bss || width !in {1, 2, 4, 8} { return false; }
          bssSize := bssSize + count * width;
        case DefineString(bytes) => data := data + bytes;
        case Define(width, value) =>
          if width !in {1, 2, 4, 8} { return false; }
          data := data + LE(width, value % Pow256(width));
      }
      return true;
    }

    /** parse_line on one statement; false where the original raises an error. */
    method ParseLine(st: Statement) returns (ok: bool)
      modifies this
      ensures ok == Feed(old(State()), st).Some?
      ensures State() == if ok then Feed(old(State()), st).value else old(State())
    {
      match st {
        case SetSection(section) => currentSection := section;
        case LabelHere(name) =>
          if currentSection == Text {
            labels := labels[name := |code|];
          } else if currentSection == Data {
            dataLabels := dataLabels[name := |data|];
          } else {
            bssLabels := bssLabels[name := bssSize];
          }
        case Code(i) =>
          if currentSection == Text {
            EncodeInstruction(i);
          } else if !Bare(i) {
            return false;
          }
        case _ =>
          if currentSection == Text { return false; }
          ok := ParseDataDirective(st);
          return;
      }
      return true;
    }

    /** parse_file on parsed lines. */
    method ParseFile(stmts: seq<Statement>) returns (ok: bool)
      requires State() == Empty()
      modifies this
      ensures ok == Parsed(stmts).Some?
      ensures ok ==> State() == Parsed(stmts).value
    {
      hide Feed;
      var idx := 0;
      while idx < |stmts|
        invariant 0 <= idx <= |stmts| && Parsed(stmts[..idx]) == Some(State())
      {
        assert stmts[..idx + 1][..idx] == stmts[..idx];
        ok := ParseLine(stmts[idx]);
        if !ok {
          FailedPrefix(stmts, idx + 1);
          return;
        }
        idx := idx + 1;
      }
      assert stmts[..idx] == stmts;
      return true;
    }

    /** The lookup of resolve_labels. */
    method Lookup(name: string) returns (addr: Option<nat>)
      ensures addr == Address(State(), name)
    {
      if name in labels { return Some(labels[name]); }
      if name in dataLabels { return Some(|code| + dataLabels[name]); }
      if name in bssLabels { return Some(|code| + |data| + bssLabels[name]); }
      return None;
    }

    method ResolveLabels() returns (ok: bool)
      requires InCode(unresolvedRefs, |code|)
      modifies `code
      ensures ok == Resolve(old(State())).Some?
      ensures ok ==> State() == Resolve(old(State())).value
    {
      ghost var a, env := State(), Env(State());
      hide Slot, Patch, Env;
      var k := 0;
      while k < |unresolvedRefs|
        invariant 0 <= k <= |unresolvedRefs| && |code| == |a.code|
        invariant Resolved(a.code, a.refs, env, k) == Some(code)
      {
        var r := unresolvedRefs[k];
        assert r in unresolvedRefs;
        SameAddresses(a, State(), r.name);
        var addr := Lookup(r.name);
        if addr == None {
          NeverResolved(a.code, a.refs, env, k + 1, |a.refs|);
          return false;
        }
        SlotIs(env, r.name, addr.value);
        code := Patch(code, r.offset, LE(4, addr.value % U32_SIZE));
        k := k + 1;
      }
      return true;
    }

    /** write_bexe: the bytes of the file, None when struct.pack refuses a size. */
    method WriteBexe() returns (file: Option<seq<byte>>)
      ensures file == Image(State())
    {
      if |code| >= 0x1_0000 || |data| >= 0x1_0000 || bssSize >= 0x1_0000 { return None; }
      var header := LE(4, MAGIC) + LE(2, |code|) + LE(2, |data|) + LE(2, bssSize);
      return Some(header + code + data);
    }
  }

  /** An error in a line is an error of the file. */
  lemma {:induction false} FailedPrefix(stmts: seq<Statement>, n: nat)
    requires n <= |stmts| && Parsed(stmts[..n]) == None
    ensures Parsed(stmts) == None
    decreases |stmts|
  {
    if n < |stmts| {
      assert stmts[..|stmts| - 1][..n] == stmts[..n];
      FailedPrefix(stmts[..|stmts| - 1], n);
    } else {
      assert stmts[..n] == stmts;
    }
  }

  lemma {:induction false} NeverResolved(code: seq<byte>, refs: seq<Ref>, env: map<string, nat>, k: nat, n: nat)
    requires k <= n <= |refs| && InCode(refs, |code|) && Resolved(code, refs, env, k) == None
    ensures Resolved(code, refs, env, n) == None
    decreases n
  {
    if k < n { NeverResolved(code, refs, env, k, n - 1); }
  }

  /** Patching code moves no label. */
  lemma SameAddresses(a: Asm, a': Asm, name: string)
    requires a' == a.(code := a'.code) && |a'.code| == |a.code|
    ensures Address(a', name) == Address(a, name)
    ensures name in Env(a) <==> Address(a, name).Some?
    ensures name in Env(a) ==> Address(a, name) == Some(Env(a)[name])
  {
  }

  lemma SlotIs(env: map<string, nat>, name: string, addr: nat)
    requires name in env && env[name] == addr
    ensures Slot(env, name) == LE(4, addr % U32_SIZE)
  {
  }
}
