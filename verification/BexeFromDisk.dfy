/** A program assembled, stored in a FAT12 volume and loaded from there. */
module BexeFromDisk {
  import opened Options
  import opened Bytes
  import opened Ide
  import opened Fat12Codec
  import opened Fat12Volume
  import opened Fat12Effects
  import Fat12RoundTrip
  import opened BexeCode
  import opened BexeAsm
  import opened BexeSim
  import opened BexeRun

  /** The file a program is assembled to. */
  function ImageOf(stmts: seq<Statement>): (file: seq<byte>)
    requires Parsed(stmts).Some? && Fits(Parsed(stmts).value)
    requires AllDefined(Program(stmts), Env(Parsed(stmts).value))
    ensures 10 <= |file| < 0x2_000A
  {
    ParsedLinks(stmts);
    CodeSize(stmts);
    var a := Resolve(Parsed(stmts).value).value;
    LinkedFits(Parsed(stmts).value, a.code);
    Image(a).value
  }

  /** An assembled image stored under an 8.3 name not yet in use is what bexe_load reads back, and the
      machine it sets up stands at the first line of the program with the linked code in memory. */
  lemma StoredProgramLoads(disk: Disk, b: Bpb, name: seq<byte>, stmts: seq<Statement>, stackW: seq<byte>, stackR: seq<byte>)
    requires Parsed(stmts).Some? && Fits(Parsed(stmts).value)
    requires AllDefined(Program(stmts), Env(Parsed(stmts).value))
    requires forall i :: i in Program(stmts) ==> Legal(i)
    requires Vol(disk, b) && |stackW| == |stackR| == FAT_BUFFER
    requires 0 !in name && FindFile(disk, b, FormatName(name), 0) == None
    requires WriteFile(disk, b, name, ImageOf(stmts), stackW).1 == 0
    requires Fat12RoundTrip.Readable(disk, b, name, |ImageOf(stmts)|)
    ensures var d := WriteFile(disk, b, name, ImageOf(stmts), stackW).0;
            var a, instrs := Parsed(stmts).value, Program(stmts);
            var s := Start(instrs, Env(a), a.data, a.bssSize);
            && var read := ReadFile(d, b, name, true, stackR);
            && read.Some? && Load(read.value.0) == Loaded(Lower(instrs, s))
            && Linked(instrs, Env(a), s)
  {
    hide *;
    AssembledLoads(stmts);
    ImageIs(stmts);
    Fat12RoundTrip.WriteThenRead(disk, b, name, ImageOf(stmts), true, stackW, stackR);
  }

  lemma ImageIs(stmts: seq<Statement>)
    requires Parsed(stmts).Some? && Fits(Parsed(stmts).value)
    requires AllDefined(Program(stmts), Env(Parsed(stmts).value))
    ensures InCode(Parsed(stmts).value.refs, |Parsed(stmts).value.code|) && Resolve(Parsed(stmts).value).Some?
    ensures Image(Resolve(Parsed(stmts).value).value) == Some(ImageOf(stmts))
  {
    ParsedLinks(stmts);
    CodeSize(stmts);
    hide Parsed, Program, Resolve, LE;
  }
}
