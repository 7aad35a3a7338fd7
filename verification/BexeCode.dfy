/** Instructions of the BEXE assembler that the virtual machine decodes, and their encoding. */
module BexeCode {
  import opened Options
  import opened Bytes

  const U32_SIZE: nat := 0x1_0000_0000

  datatype Alu = Mv | Add | Sub | Mul | Div | Cmp

  datatype Cond = Always | Equal | NotEqual | Less | Greater | LessEqual | GreaterEqual

  datatype Operand = Register(r: byte) | Number(n: int) | Symbol(name: string)

  /** A parsed instruction on the 64-bit registers, numbered 0 to 15. */
  datatype Instr =
    | Two(alu: Alu, dst: byte, src: Operand)
    | Jump(cond: Cond, target: string)
    | Call(target: string)
    | Push(reg: byte)
    | Pop(reg: byte)
    | Interrupt(n: int)
    | Syscall
    | Ret
    | Hlt
    | Nop

  /** Operands are register numbers the source accepts. */
  predicate Legal(i: Instr) {
    match i
    case Two(_, dst, src) => dst < 16 && (src.Register? ==> src.r < 16)
    case Push(reg) => reg < 16
    case Pop(reg) => reg < 16
    case _ => true
  }

  // ---- Little-endian words ----

  /** The low `n` bytes of `v`, lowest first. */
  function LE(n: nat, v: nat): (s: seq<byte>)
    ensures |s| == n
  {
    if n == 0 then [] else [v % 0x100] + LE(n - 1, v / 0x100)
  }

  function Val(s: seq<byte>): nat {
    if s == [] then 0 else s[0] as int + 0x100 * Val(s[1..])
  }

  function Pow256(n: nat): (p: nat)
    ensures p > 0
  {
    if n == 0 then 1 else 0x100 * Pow256(n - 1)
  }

  lemma {:induction false} ValOfLE(n: nat, v: nat)
    requires v < Pow256(n)
    ensures Val(LE(n, v)) == v
  {
    if n > 0 {
      ValOfLE(n - 1, v / 0x100);
      assert LE(n, v)[1..] == LE(n - 1, v / 0x100);
    }
  }

  lemma {:induction false} ValBound(s: seq<byte>)
    ensures Val(s) < Pow256(|s|)
  {
    if s != [] { ValBound(s[1..]); }
  }

  lemma Pow4()
    ensures Pow256(4) == U32_SIZE && Pow256(8) == U32_SIZE * U32_SIZE
  {
    assert Pow256(1) == 0x100;
    assert Pow256(2) == 0x1_0000;
    assert Pow256(3) == 0x100_0000;
    assert Pow256(4) == 0x1_0000_0000;
    assert Pow256(5) == 0x100_0000_0000;
    assert Pow256(6) == 0x1_0000_0000_0000;
    assert Pow256(7) == 0x100_0000_0000_0000;
  }

  // ---- Encoding ----

  function AluOpcode(a: Alu): byte {
    match a case Mv => 0x01 case Add => 0x02 case Sub => 0x03 case Mul => 0x04 case Div => 0x05 case Cmp => 0x10
  }

  function JumpOpcode(c: Cond): byte {
    match c
    case Always => 0x06
    case Equal => 0x07
    case NotEqual => 0x08
    case Less => 0x09
    case Greater => 0x0A
    case LessEqual => 0x0B
    case GreaterEqual => 0x0C
  }

  /** The four bytes of a label's address, zeros while it is unresolved. */
  function Slot(env: map<string, nat>, name: string): (s: seq<byte>)
    ensures |s| == 4
  {
    LE(4, if name in env then env[name] % U32_SIZE else 0)
  }

  /** An instruction's bytes with labels replaced by the addresses in `env`. */
  function Encode(i: Instr, env: map<string, nat>): (s: seq<byte>) {
    match i
    case Two(alu, dst, Register(r)) => [AluOpcode(alu), dst, 0x00, r]
    case Two(alu, dst, Number(n)) => [AluOpcode(alu), dst, 0x01] + LE(4, n % U32_SIZE)
    case Two(alu, dst, Symbol(l)) => [AluOpcode(alu), dst, 0x01] + Slot(env, l)
    case Jump(cond, l) => [JumpOpcode(cond)] + Slot(env, l)
    case Call(l) => [0x30] + Slot(env, l)
    case Push(reg) => [0x20, reg]
    case Pop(reg) => [0x21, reg]
    case Interrupt(n) => [0x50, n % 0x100]
    case Syscall => [0x50, 0x80]
    case Ret => [0x31]
    case Hlt => [0x40]
    case Nop => [0x90]
  }

  function Size(i: Instr): (n: nat)
    ensures n > 0
    ensures forall env :: |Encode(i, env)| == n
  {
    match i
    case Two(_, _, src) => if src.Register? then 4 else 7
    case Jump(_, _) => 5
    case Call(_) => 5
    case Push(_) => 2
    case Pop(_) => 2
    case Interrupt(_) => 2
    case Syscall => 2
    case Ret => 1
    case Hlt => 1
    case Nop => 1
  }

  /** A place in the code that waits for a label's address. */
  datatype Ref = Ref(offset: nat, name: string)

  /** Where in the instruction its label goes. */
  function SlotOf(i: Instr): Option<Ref> {
    match i
    case Two(_, _, Symbol(l)) => Some(Ref(3, l))
    case Jump(_, l) => Some(Ref(1, l))
    case Call(l) => Some(Ref(1, l))
    case _ => None
  }

  /** The code of a program. */
  function Flat(instrs: seq<Instr>, env: map<string, nat>): (s: seq<byte>) {
    if instrs == [] then [] else Flat(instrs[..|instrs| - 1], env) + Encode(instrs[|instrs| - 1], env)
  }

  /** The offset of instruction `k`, or of the end of the code. */
  function Off(instrs: seq<Instr>, k: nat): nat
    requires k <= |instrs|
  {
    if k == 0 then 0 else Off(instrs, k - 1) + Size(instrs[k - 1])
  }

  function Refs(instrs: seq<Instr>): seq<Ref> {
    if instrs == [] then []
    else
      var n := |instrs| - 1;
      Refs(instrs[..n]) + (match SlotOf(instrs[n]) case None => [] case Some(r) => [Ref(Off(instrs, n) + r.offset, r.name)])
  }

  lemma {:induction false} OffPrefix(instrs: seq<Instr>, n: nat, k: nat)
    requires k <= n <= |instrs|
    ensures Off(instrs[..n], k) == Off(instrs, k)
    decreases k
  {
    if k > 0 { OffPrefix(instrs, n, k - 1); }
  }

  lemma {:induction false} FlatLength(instrs: seq<Instr>, env: map<string, nat>)
    ensures |Flat(instrs, env)| == Off(instrs, |instrs|)
    decreases |instrs|
  {
    if instrs != [] {
      var n := |instrs| - 1;
      FlatLength(instrs[..n], env);
      OffPrefix(instrs, n, n);
      assert |Encode(instrs[n], env)| == Size(instrs[n]);
    }
  }

  lemma {:induction false} OffMonotone(instrs: seq<Instr>, j: nat, k: nat)
    requires j < k <= |instrs|
    ensures Off(instrs, j) + Size(instrs[j]) <= Off(instrs, k)
    decreases k
  {
    if j < k - 1 { OffMonotone(instrs, j, k - 1); }
  }

  /** The bytes at an instruction's offset are that instruction's. */
  lemma {:induction false} FlatAt(instrs: seq<Instr>, env: map<string, nat>, k: nat)
    requires k < |instrs|
    ensures Off(instrs, k) + Size(instrs[k]) <= |Flat(instrs, env)|
    ensures Flat(instrs, env)[Off(instrs, k)..Off(instrs, k) + Size(instrs[k])] == Encode(instrs[k], env)
    decreases |instrs|
  {
    hide Flat, Encode, Size, Off;
    var n := |instrs| - 1;
    FlatLength(instrs, env);
    FlatLength(instrs[..n], env);
    OffPrefix(instrs, n, n);
    OffPrefix(instrs, n, k);
    FlatLast(instrs, env);
    var front, last := Flat(instrs[..n], env), Encode(instrs[n], env);
    if k < n {
      FlatAt(instrs[..n], env, k);
      OffMonotone(instrs, k, n);
      SliceOfFirst(front, last, Off(instrs, k), Off(instrs, k) + Size(instrs[k]));
    } else {
      SliceOfSecond(front, last);
    }
  }

  lemma FlatLast(instrs: seq<Instr>, env: map<string, nat>)
    requires instrs != []
    ensures var n := |instrs| - 1;
            && Flat(instrs, env) == Flat(instrs[..n], env) + Encode(instrs[n], env)
            && |Encode(instrs[n], env)| == Size(instrs[n])
            && Off(instrs, n + 1) == Off(instrs, n) + Size(instrs[n])
  {
  }

  lemma SliceOfFirst<T>(a: seq<T>, b: seq<T>, i: nat, j: nat)
    requires i <= j <= |a|
    ensures (a + b)[i..j] == a[i..j]
  {
  }

  lemma SliceOfSecond<T>(a: seq<T>, b: seq<T>)
    ensures (a + b)[|a|..|a| + |b|] == b
  {
  }

  // ---- Patching ----

  /** Four bytes stored at `at`. */
  function Patch(code: seq<byte>, at: nat, w: seq<byte>): (r: seq<byte>)
    requires at + |w| <= |code|
    ensures |r| == |code|
  {
    code[..at] + w + code[at + |w|..]
  }

  /** Resolving a label patches its slot and nothing else. */
  lemma EncodePatched(i: Instr, env: map<string, nat>)
    ensures match SlotOf(i)
            case None => Encode(i, env) == Encode(i, map[])
            case Some(r) => r.offset + 4 == Size(i) && |Encode(i, map[])| == Size(i)
                            && Encode(i, env) == Patch(Encode(i, map[]), r.offset, Slot(env, r.name))
  {
    assert |Encode(i, map[])| == Size(i);
  }

  /** The slots of a program lie inside its code, four bytes each and apart. */
  lemma {:induction false} RefsApart(instrs: seq<Instr>)
    ensures forall j :: 0 <= j < |Refs(instrs)| ==> Refs(instrs)[j].offset + 4 <= Off(instrs, |instrs|)
    ensures forall j, k :: 0 <= j < k < |Refs(instrs)| ==> Refs(instrs)[j].offset + 4 <= Refs(instrs)[k].offset
    decreases |instrs|
  {
    if instrs != [] {
      var n := |instrs| - 1;
      RefsApart(instrs[..n]);
      OffPrefix(instrs, n, n);
      EncodePatched(instrs[n], map[]);
    }
  }
}
