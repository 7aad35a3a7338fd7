/** The assembler from parsed lines to the BEXE image: sections, labels, resolution, layout. */
module BexeAsm {
  import opened Options
  import opened Bytes
  import opened BexeCode

  const MAGIC: nat := 0x4245_5845

  datatype Section = Text | Data | Bss

  /** A parsed line: a line "label: rest" is two statements. `width` is the element size in bytes. */
  datatype Statement =
    | SetSection(section: Section)
    | LabelHere(name: string)
    | Code(instr: Instr)
    | DefineString(bytes: seq<byte>)
    | Define(width: nat, value: int)
    | Reserve(width: nat, count: nat)

  datatype Asm = Asm(code: seq<byte>, data: seq<byte>, bssSize: nat, labels: map<string, nat>,
                     dataLabels: map<string, nat>, bssLabels: map<string, nat>, refs: seq<Ref>, section: Section)

  function Empty(): Asm {
    Asm([], [], 0, map[], map[], map[], [], Text)
  }

  /** Instructions written without operands, which a data section skips in silence. */
  predicate Bare(i: Instr) {
    i.Ret? || i.Hlt? || i.Nop? || i.Syscall?
  }

  /** The values of the source's data directives: 1, 2, 4 or 8 bytes, the value cut to its low bytes. */
  function Element(width: nat, value: int): (s: seq<byte>) {
    LE(width, value % Pow256(width))
  }

  function RefsOf(i: Instr, at: nat): seq<Ref> {
    match SlotOf(i) case None => [] case Some(r) => [Ref(at + r.offset, r.name)]
  }

  /** parse_line on one statement; None when it raises an error. */
  function Feed(a: Asm, st: Statement): Option<Asm> {
    match st
    case SetSection(section) => Some(a.(section := section))
    case LabelHere(name) =>
      (match a.section
       case Text => Some(a.(labels := a.labels[name := |a.code|]))
       case Data => Some(a.(dataLabels := a.dataLabels[name := |a.data|]))
       case Bss => Some(a.(bssLabels := a.bssLabels[name := a.bssSize])))
    case Code(i) =>
      if a.section == Text then Some(a.(code := a.code + Encode(i, map[]), refs := a.refs + RefsOf(i, |a.code|)))
      else if Bare(i) then Some(a)
      else None
    case DefineString(bytes) => if a.section == Text then None else Some(a.(data := a.data + bytes))
    case Define(width, value) =>
      if a.section == Text || width !in {1, 2, 4, 8} then None else Some(a.(data := a.data + Element(width, value)))
    case Reserve(width, count) =>
      if a.section != Bss || width !in {1, 2, 4, 8} then None else Some(a.(bssSize := a.bssSize + count * width))
  }

  /** All lines in order. */
  function Parsed(stmts: seq<Statement>): Option<Asm> {
    if stmts == [] then Some(Empty())
    else
      match Parsed(stmts[..|stmts| - 1])
      case None => None
      case Some(a) => Feed(a, stmts[|stmts| - 1])
  }

  // ---- Label resolution ----

  /** Text labels win over data labels, and those over bss labels. */
  function Address(a: Asm, name: string): Option<nat> {
    if name in a.labels then Some(a.labels[name])
    else if name in a.dataLabels then Some(|a.code| + a.dataLabels[name])
    else if name in a.bssLabels then Some(|a.code| + |a.data| + a.bssLabels[name])
    else None
  }

  /** The addresses of all defined labels. */
  function Env(a: Asm): (env: map<string, nat>)
    ensures forall l :: l in env <==> Address(a, l).Some?
    ensures forall l :: l in env ==> Some(env[l]) == Address(a, l)
  {
    map l | l in a.labels.Keys + a.dataLabels.Keys + a.bssLabels.Keys :: Address(a, l).value
  }

  ghost predicate InCode(refs: seq<Ref>, size: nat) {
    forall r :: r in refs ==> r.offset + 4 <= size
  }

  /** The first `n` references resolved, or None at an undefined label. */
  function Resolved(code: seq<byte>, refs: seq<Ref>, env: map<string, nat>, n: nat): (r: Option<seq<byte>>)
    requires n <= |refs| && InCode(refs, |code|)
    ensures r.Some? ==> |r.value| == |code|
  {
    if n == 0 then Some(code)
    else
      match Resolved(code, refs, env, n - 1)
      case None => None
      case Some(c) => if refs[n - 1].name in env then Some(Patch(c, refs[n - 1].offset, Slot(env, refs[n - 1].name))) else None
  }

  /** Patches inside the front of the code leave its tail alone. */
  lemma {:induction false} ResolvedFront(front: seq<byte>, tail: seq<byte>, refs: seq<Ref>, more: seq<Ref>, env: map<string, nat>, n: nat)
    requires n <= |refs| && InCode(refs, |front|) && InCode(refs + more, |front + tail|)
    ensures Resolved(front + tail, refs + more, env, n)
            == match Resolved(front, refs, env, n) case None => None case Some(c) => Some(c + tail)
    decreases n
  {
    if n > 0 {
      ResolvedFront(front, tail, refs, more, env, n - 1);
      var r := refs[n - 1];
      assert (refs + more)[n - 1] == r && r in refs;
      var c := Resolved(front, refs, env, n - 1);
      if c.Some? && r.name in env {
        PatchFront(c.value, tail, r.offset, Slot(env, r.name));
      }
    }
  }

  lemma PatchFront(front: seq<byte>, tail: seq<byte>, at: nat, w: seq<byte>)
    requires at + |w| <= |front|
    ensures Patch(front + tail, at, w) == Patch(front, at, w) + tail
  {
  }

  lemma PatchTail(front: seq<byte>, tail: seq<byte>, at: nat, w: seq<byte>)
    requires at + |w| <= |tail|
    ensures Patch(front + tail, |front| + at, w) == front + Patch(tail, at, w)
  {
  }

  ghost predicate AllDefined(instrs: seq<Instr>, env: map<string, nat>) {
    forall i :: i in instrs && SlotOf(i).Some? ==> SlotOf(i).value.name in env
  }

  lemma RefsInCode(instrs: seq<Instr>)
    ensures InCode(Refs(instrs), |Flat(instrs, map[])|)
  {
    RefsApart(instrs);
    FlatLength(instrs, map[]);
    forall r | r in Refs(instrs)
      ensures r.offset + 4 <= |Flat(instrs, map[])|
    {
      var j :| 0 <= j < |Refs(instrs)| && Refs(instrs)[j] == r;
    }
  }

  /** resolve_labels turns the code emitted with empty slots into the code with addresses in them, and
      fails exactly when an instruction names an undefined label. */
  lemma {:induction false} ResolveLinks(instrs: seq<Instr>, env: map<string, nat>)
    ensures InCode(Refs(instrs), |Flat(instrs, map[])|)
    ensures Resolved(Flat(instrs, map[]), Refs(instrs), env, |Refs(instrs)|)
            == if AllDefined(instrs, env) then Some(Flat(instrs, env)) else None
    decreases |instrs|
  {
    RefsInCode(instrs);
    if instrs != [] {
      var n := |instrs| - 1;
      var front, last := Flat(instrs[..n], map[]), Encode(instrs[n], map[]);
      RefsInCode(instrs[..n]);
      ResolveLinks(instrs[..n], env);
      ResolvedFront(front, last, Refs(instrs[..n]), RefsOf(instrs[n], Off(instrs, n)), env, |Refs(instrs[..n])|);
      LastResolved(instrs, env);
    }
  }

  lemma LastResolved(instrs: seq<Instr>, env: map<string, nat>)
    requires instrs != [] && InCode(Refs(instrs), |Flat(instrs, map[])|)
    requires var n := |instrs| - 1;
             && Refs(instrs) == Refs(instrs[..n]) + RefsOf(instrs[n], Off(instrs, n))
             && Resolved(Flat(instrs, map[]), Refs(instrs), env, |Refs(instrs[..n])|)
                == if AllDefined(instrs[..n], env) then Some(Flat(instrs[..n], env) + Encode(instrs[n], map[])) else None
    ensures Resolved(Flat(instrs, map[]), Refs(instrs), env, |Refs(instrs)|)
            == if AllDefined(instrs, env) then Some(Flat(instrs, env)) else None
  {
    hide *;
    var n := |instrs| - 1;
    var front, last, refs := Flat(instrs[..n], env), Encode(instrs[n], map[]), RefsOf(instrs[n], Off(instrs, n));
    FlatLength(instrs[..n], env);
    FlatLast(instrs, env);
    OffPrefix(instrs, n, n);
    EncodePatched(instrs[n], env);
    LastDefined(instrs, env);
    RefsOfSlot(instrs[n], Off(instrs, n));
    if SlotOf(instrs[n]).Some? {
      var r := SlotOf(instrs[n]).value;
      ResolvedStep(Flat(instrs, map[]), Refs(instrs), env, |Refs(instrs)|);
      PatchTail(front, last, r.offset, Slot(env, r.name));
    } else {
      assert Refs(instrs) == Refs(instrs[..n]);
    }
  }

  lemma RefsOfSlot(i: Instr, at: nat)
    ensures SlotOf(i) == None ==> RefsOf(i, at) == []
    ensures SlotOf(i).Some? ==> RefsOf(i, at) == [Ref(at + SlotOf(i).value.offset, SlotOf(i).value.name)]
  {
  }

  lemma LastDefined(instrs: seq<Instr>, env: map<string, nat>)
    requires instrs != []
    ensures var n := |instrs| - 1;
            AllDefined(instrs, env) <==> AllDefined(instrs[..n], env) && (SlotOf(instrs[n]).Some? ==> SlotOf(instrs[n]).value.name in env)
  {
    hide SlotOf;
    assert forall i :: i in instrs <==> i in instrs[..|instrs| - 1] || i == instrs[|instrs| - 1];
  }

  lemma ResolvedStep(code: seq<byte>, refs: seq<Ref>, env: map<string, nat>, n: nat)
    requires 0 < n <= |refs| && InCode(refs, |code|)
    ensures refs[n - 1].offset + 4 <= |code|
    ensures Resolved(code, refs, env, n)
            == match Resolved(code, refs, env, n - 1)
               case None => None
               case Some(c) =>
                 if refs[n - 1].name in env then Some(Patch(c, refs[n - 1].offset, Slot(env, refs[n - 1].name))) else None
  {
  }

  // ---- What parsing builds ----

  /** The section in force after `stmts`. */
  function SectionAfter(stmts: seq<Statement>): Section {
    if stmts == [] then Text
    else if stmts[|stmts| - 1].SetSection? then stmts[|stmts| - 1].section
    else SectionAfter(stmts[..|stmts| - 1])
  }

  /** The instructions emitted: those in text sections. */
  function Program(stmts: seq<Statement>): seq<Instr> {
    if stmts == [] then []
    else
      var front := stmts[..|stmts| - 1];
      var last := stmts[|stmts| - 1];
      Program(front) + (if last.Code? && SectionAfter(front) == Text then [last.instr] else [])
  }

  /** The assembler's code and references are those of its program; text labels are boundaries and the
      others lie in their sections. */
  ghost predicate Built(a: Asm, instrs: seq<Instr>) {
    && a.code == Flat(instrs, map[]) && a.refs == Refs(instrs)
    && (forall l :: l in a.labels ==> exists k: nat :: k <= |instrs| && a.labels[l] == Off(instrs, k))
    && (forall l :: l in a.dataLabels ==> a.dataLabels[l] <= |a.data|)
    && (forall l :: l in a.bssLabels ==> a.bssLabels[l] <= a.bssSize)
  }

  lemma {:induction false} ParsedBuilt(stmts: seq<Statement>)
    requires Parsed(stmts).Some?
    ensures Built(Parsed(stmts).value, Program(stmts)) && Parsed(stmts).value.section == SectionAfter(stmts)
    decreases |stmts|
  {
    if stmts != [] {
      var front, last := stmts[..|stmts| - 1], stmts[|stmts| - 1];
      ParsedBuilt(front);
      hide Built, Feed;
      FedBuilt(Parsed(front).value, Program(front), last);
    }
  }

  lemma FedBuilt(a: Asm, instrs: seq<Instr>, st: Statement)
    requires Built(a, instrs) && Feed(a, st).Some?
    ensures var a' := Feed(a, st).value;
            && Built(a', instrs + (if st.Code? && a.section == Text then [st.instr] else []))
            && a'.section == if st.SetSection? then st.section else a.section
  {
    hide Flat, Refs, Off, Encode, RefsOf;
    if st.Code? && a.section == Text {
      NewInstr(a, instrs, st.instr);
    } else {
      assert instrs + [] == instrs;
      if st.LabelHere? { NewLabel(a, instrs, st.name); }
    }
  }

  lemma NewLabel(a: Asm, instrs: seq<Instr>, name: string)
    requires Built(a, instrs)
    ensures Built(Feed(a, LabelHere(name)).value, instrs)
  {
    FlatLength(instrs, map[]);
    hide Flat, Off, Refs;
    var a' := Feed(a, LabelHere(name)).value;
    forall l | l in a'.labels
      ensures exists k: nat :: k <= |instrs| && a'.labels[l] == Off(instrs, k)
    {
      if a.section == Text && l == name { assert a'.labels[l] == Off(instrs, |instrs|); }
    }
  }

  lemma NewInstr(a: Asm, instrs: seq<Instr>, i: Instr)
    requires Built(a, instrs) && a.section == Text
    ensures Built(Feed(a, Code(i)).value, instrs + [i])
  {
    var all := instrs + [i];
    assert all[..|instrs|] == instrs;
    FlatLength(instrs, map[]);
    OffPrefix(all, |instrs|, |instrs|);
    forall l | l in a.labels
      ensures exists k: nat :: k <= |all| && a.labels[l] == Off(all, k)
    {
      var k: nat :| k <= |instrs| && a.labels[l] == Off(instrs, k);
      OffPrefix(all, |instrs|, k);
    }
  }

  // ---- What a label means ----

  /** Lines only add to the code and the data. */
  ghost predicate Grows(a: Asm, a': Asm) {
    && a.code <= a'.code && a.data <= a'.data && a.bssSize <= a'.bssSize
    && a.labels.Keys <= a'.labels.Keys && a.dataLabels.Keys <= a'.dataLabels.Keys && a.bssLabels.Keys <= a'.bssLabels.Keys
  }

  /** Labels other than those set afterwards keep their place. */
  ghost predicate KeepsLabel(a: Asm, a': Asm, l: string) {
    && (l in a'.labels <==> l in a.labels) && (l in a.labels ==> a'.labels[l] == a.labels[l])
    && (l in a'.dataLabels <==> l in a.dataLabels) && (l in a.dataLabels ==> a'.dataLabels[l] == a.dataLabels[l])
    && (l in a'.bssLabels <==> l in a.bssLabels) && (l in a.bssLabels ==> a'.bssLabels[l] == a.bssLabels[l])
  }

  lemma {:induction false} ParsedPrefix(stmts: seq<Statement>, n: nat)
    requires n <= |stmts| && Parsed(stmts).Some?
    ensures Parsed(stmts[..n]).Some? && Grows(Parsed(stmts[..n]).value, Parsed(stmts).value)
    ensures forall l :: LabelHere(l) !in stmts[n..] ==> KeepsLabel(Parsed(stmts[..n]).value, Parsed(stmts).value, l)
    decreases |stmts|
  {
    if n < |stmts| {
      var front, last := stmts[..|stmts| - 1], stmts[|stmts| - 1];
      ParsedPrefix(front, n);
      assert front[..n] == stmts[..n];
      assert stmts[n..] == front[n..] + [last];
      FedGrows(Parsed(front).value, last);
      hide Feed, Parsed;
      forall l | LabelHere(l) !in stmts[n..]
        ensures KeepsLabel(Parsed(stmts[..n]).value, Parsed(stmts).value, l)
      {
        assert last in stmts[n..] && LabelHere(l) !in front[n..];
      }
    } else {
      assert stmts[..n] == stmts;
    }
  }

  lemma FedGrows(a: Asm, st: Statement)
    requires Feed(a, st).Some?
    ensures Grows(a, Feed(a, st).value)
    ensures forall l :: st != LabelHere(l) ==> KeepsLabel(a, Feed(a, st).value, l)
  {
  }

  /** A label's address is the offset, in code ++ data ++ bss, of the first byte emitted or reserved after
      its last definition: everything before it is a prefix of the final section. */
  lemma LabelMeaning(stmts: seq<Statement>, n: nat, l: string)
    requires n < |stmts| && stmts[n] == LabelHere(l) && LabelHere(l) !in stmts[n + 1..] && Parsed(stmts).Some?
    ensures Parsed(stmts[..n]).Some?
    ensures var p, a := Parsed(stmts[..n]).value, Parsed(stmts).value;
            && (p.section == Text ==> Address(a, l) == Some(|p.code|) && p.code <= a.code)
            && (p.section == Data && l !in a.labels ==> Address(a, l) == Some(|a.code| + |p.data|) && p.data <= a.data)
            && (p.section == Bss && l !in a.labels && l !in a.dataLabels ==>
                  Address(a, l) == Some(|a.code| + |a.data| + p.bssSize) && p.bssSize <= a.bssSize)
  {
    hide *;
    ParsedPrefix(stmts, n);
    ParsedPrefix(stmts, n + 1);
    var first := stmts[..n + 1];
    assert first[..|first| - 1] == stmts[..n] && first[|first| - 1] == stmts[n];
    LastParsed(first);
    LabelPlace(Parsed(stmts[..n]).value, Parsed(stmts).value, l);
  }

  lemma LabelPlace(p: Asm, a: Asm, l: string)
    requires Grows(p, a) && KeepsLabel(Feed(p, LabelHere(l)).value, a, l)
    ensures (p.section == Text ==> Address(a, l) == Some(|p.code|) && p.code <= a.code)
    ensures p.section == Data && l !in a.labels ==> Address(a, l) == Some(|a.code| + |p.data|) && p.data <= a.data
    ensures p.section == Bss && l !in a.labels && l !in a.dataLabels ==>
              Address(a, l) == Some(|a.code| + |a.data| + p.bssSize) && p.bssSize <= a.bssSize
  {
  }

  lemma LastParsed(stmts: seq<Statement>)
    requires stmts != [] && Parsed(stmts).Some?
    ensures Parsed(stmts[..|stmts| - 1]).Some?
    ensures Parsed(stmts) == Feed(Parsed(stmts[..|stmts| - 1]).value, stmts[|stmts| - 1])
  {
  }

  // ---- The image ----

  /** struct.pack refuses sizes above 65535. */
  predicate Fits(a: Asm) {
    |a.code| < 0x1_0000 && |a.data| < 0x1_0000 && a.bssSize < 0x1_0000
  }

  /** write_bexe: header, code, data. */
  function Image(a: Asm): Option<seq<byte>> {
    if !Fits(a) then None
    else Some(LE(4, MAGIC) + LE(2, |a.code|) + LE(2, |a.data|) + LE(2, a.bssSize) + a.code + a.data)
  }

  /** resolve_labels. */
  function Resolve(a: Asm): Option<Asm>
    requires InCode(a.refs, |a.code|)
  {
    match Resolved(a.code, a.refs, Env(a), |a.refs|)
    case None => None
    case Some(code) => Some(a.(code := code))
  }

  /** The code of a program with its labels resolved is that program's encoding with each name replaced by
      its address; resolution fails exactly when a name is undefined. */
  lemma ParsedLinks(stmts: seq<Statement>)
    requires Parsed(stmts).Some?
    ensures var a, instrs := Parsed(stmts).value, Program(stmts);
            && InCode(a.refs, |a.code|)
            && Resolve(a) == if AllDefined(instrs, Env(a)) then Some(a.(code := Flat(instrs, Env(a)))) else None
  {
    ParsedBuilt(stmts);
    ResolveLinks(Program(stmts), Env(Parsed(stmts).value));
  }
}
