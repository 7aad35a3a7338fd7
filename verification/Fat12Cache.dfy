/** The BPB cache across drives: when it can be trusted, and the one case where it cannot. */
module Fat12Cache {
  import opened Bytes
  import opened Options
  import opened Ide
  import opened FatTable
  import opened Fat12Codec
  import opened Fat12Volume
  import opened Fat12Driver
  import opened Fat12Format

  /** A cached BPB is the one in sector 0 of the drive it is cached for. */
  ghost predicate Coherent(s: Sys) {
    s.cache.Some? ==>
      var disk := DiskOf(s, s.cache.value.0);
      HasBootSector(disk) && ParseBpb(disk[0]) == s.cache.value.1
  }

  /** The table writer's 8-bit reserved count must not be zero. */
  predicate SafeReserved(b: Bpb) {
    b.reserved % 0x100 != 0
  }

  /** Every device that can be mounted has a reserved count that survives the cut to 8 bits. */
  ghost predicate SafeBoots(s: Sys) {
    forall d :: d in s.media && HasBootSector(s.media[d]) && ValidBpb(ParseBpb(s.media[d][0])) ==>
                  SafeReserved(ParseBpb(s.media[d][0]))
  }

  // ---- Sector 0 ----

  lemma {:induction false} FatsKeepBoot(disk: Disk, copies: nat, size: nat, fat: seq<byte>, start: nat)
    requires 512 * size <= |fat| && start >= 1 && |disk| > 0
    ensures WriteFats(disk, copies, size, fat, start)[0] == disk[0]
    decreases copies
  {
    if copies > 0 { FatsKeepBoot(disk, copies - 1, size, fat, start); }
  }

  lemma {:induction false} ChainKeepsBoot(disk: Disk, b: Bpb, fat: seq<byte>, cluster: nat, data: seq<byte>)
    requires Usable(b) && |fat| == FAT_BUFFER && |disk| > 0
    ensures WriteChain(disk, b, fat, cluster, data)[0] == disk[0]
    decreases |data|
  {
    if data != [] && InChain(cluster) {
      var n := Min(|data|, ClusterBytes(b));
      var d := WriteSectors(disk, ClusterLba(b, cluster), b.sectorsPerCluster, ClusterImage(b, data));
      assert d[0] == disk[0];
      if n < |data| { ChainKeepsBoot(d, b, fat, ReadEntry(fat, cluster), data[n..]); }
    }
  }

  /** Sector 0 after the allocation: with a reserved count that is a multiple of 256, it is the first
      sector of the table. */
  lemma AllocBoot(disk: Disk, b: Bpb, count: nat)
    requires Usable(b) && count < 0x1_0000 && |disk| > 0
    ensures var chain := AllocChain(disk, b, count);
            AllocClusters(disk, b, count)[0] ==
            if chain == [] || SafeReserved(b) then disk[0] else SectorOf(LinkedBytes(FatOf(disk, b), chain), 0)
  {
    var chain := AllocChain(disk, b, count);
    if chain != [] {
      var fat := LinkedBytes(FatOf(disk, b), chain);
      hide LinkedBytes, FatOf, AllocChain;
      if SafeReserved(b) {
        FatsKeepBoot(disk, b.numFats, b.fatSize, fat, b.reserved % 0x100);
      } else {
        FatsAtZero(disk, b.numFats, b.fatSize, fat);
      }
    }
  }

  lemma FatsAtZero(disk: Disk, copies: nat, size: nat, fat: seq<byte>)
    requires size >= 1 && 512 * size <= |fat| && |disk| > 0 && copies >= 1
    ensures WriteFats(disk, copies, size, fat, 0)[0] == SectorOf(fat, 0)
    decreases copies
  {
    if copies == 1 {
      assert WriteFats(disk, 0, size, fat, 0) == disk;
    } else {
      FatsAtZero(disk, copies - 1, size, fat);
      MulAtMost(1, copies - 1, size);
    }
  }

  /** What sector 0 holds after fat12_write_file. */
  function BootAfterWrite(disk: Disk, b: Bpb, size: nat): Sector
    requires Usable(b) && |disk| > 0
  {
    var chain := AllocChain(disk, b, ClustersNeeded(b, size));
    if chain == [] || SafeReserved(b) then disk[0] else SectorOf(LinkedBytes(FatOf(disk, b), chain), 0)
  }

  lemma WriteBoot(disk: Disk, b: Bpb, name: seq<byte>, data: seq<byte>, stack: seq<byte>)
    requires Usable(b) && |stack| == FAT_BUFFER && |data| < 0x1_0000_0000 && |disk| > 0
    ensures WriteFile(disk, b, name, data, stack).0[0] == BootAfterWrite(disk, b, |data|)
  {
    var count := ClustersNeeded(b, |data|);
    var chain := AllocChain(disk, b, count);
    AllocBoot(disk, b, count);
    hide FindSlot, PutSlot, AllocChain, AllocClusters, DirEntry, FormatName, WriteClusters, ClustersNeeded, LinkedBytes, FatOf,
         Slots, RootLba;
    if chain != [] {
      var d1 := AllocClusters(disk, b, count);
      var slot := FindSlot(d1, b, 0);
      if slot.Some? { FiledBoot(d1, b, slot.value, DirEntry(FormatName(name), chain[0], |data|), chain[0], data, stack); }
    }
  }

  lemma FiledBoot(disk: Disk, b: Bpb, k: nat, e: seq<byte>, first: nat, data: seq<byte>, stack: seq<byte>)
    requires Usable(b) && |stack| == FAT_BUFFER && k < Slots(disk, b) && |e| == 32
    ensures |disk| > 0 && WriteClusters(PutSlot(disk, b, k, e), b, first, data, stack)[0] == disk[0]
  {
    SlotKeepsBoot(disk, b, k, e);
    hide PutSlot, WriteClusters, Slots, RootLba;
    ClustersKeepBoot(PutSlot(disk, b, k, e), b, first, data, stack);
  }

  lemma SlotKeepsBoot(disk: Disk, b: Bpb, k: nat, e: seq<byte>)
    requires ValidBpb(b) && k < Slots(disk, b) && |e| == 32
    ensures |disk| > 0 && PutSlot(disk, b, k, e)[0] == disk[0]
  {
  }

  lemma ClustersKeepBoot(disk: Disk, b: Bpb, first: nat, data: seq<byte>, stack: seq<byte>)
    requires Usable(b) && |stack| == FAT_BUFFER && |disk| > 0
    ensures WriteClusters(disk, b, first, data, stack)[0] == disk[0]
  {
    if FatReadable(disk, b) {
      var fat := FatBuffer(disk, b, stack);
      ChainKeepsBoot(disk, b, fat, first, data);
      FatsKeepBoot(WriteChain(disk, b, fat, first, data), b.numFats, b.fatSize, ClosedFat(b, fat, first, data), b.reserved);
    }
  }

  // ---- Runs over all drives ----

  datatype SysOp =
    | Format(drive: int, oem: seq<byte>)
    | Write(drive: int, name: seq<byte>, data: seq<byte>, stack: seq<byte>)
    | Read(drive: int)

  /** What the C routines demand of their callers in state `s`. */
  ghost predicate Callable(s: Sys, op: SysOp) {
    match op
    case Format(d, oem) => 0 <= d < 4 && |DiskOf(s, d)| < WORD
    case Write(d, name, data, stack) => Safe(s, d) && |stack| == FAT_BUFFER && |data| < 0x1_0000_0000
    case Read(d) => Safe(s, d)
  }

  /** The state after an operation; reading changes no more than the cache. */
  function Step(s: Sys, op: SysOp): Sys
    requires Callable(s, op)
  {
    match op
    case Format(d, oem) => FormatSys(s, d, oem)
    case Write(d, name, data, stack) => WriteFileSys(s, d, name, data, stack).0
    case Read(d) => Mounted(s, d)
  }

  ghost predicate Runnable(s: Sys, ops: seq<SysOp>)
    decreases |ops|
  {
    ops == [] || (Callable(s, ops[0]) && Runnable(Step(s, ops[0]), ops[1..]))
  }

  function Run(s: Sys, ops: seq<SysOp>): Sys
    requires Runnable(s, ops)
    decreases |ops|
  {
    if ops == [] then s else Run(Step(s, ops[0]), ops[1..])
  }

  lemma MountCoherent(s: Sys, drive: int)
    requires Coherent(s) && SafeBoots(s)
    ensures Coherent(Mounted(s, drive)) && SafeBoots(Mounted(s, drive))
    ensures Ready(s, drive).Some? ==> |DiskOf(s, drive)| > 0 && SafeReserved(Ready(s, drive).value)
  {
  }

  /** Replacing a disk whose first sector stays is invisible to the cache. */
  lemma SameBootCoherent(s: Sys, drive: int, disk: Disk)
    requires Coherent(s) && SafeBoots(s)
    requires |disk| == |DiskOf(s, drive)| > 0 && disk[0] == DiskOf(s, drive)[0]
    ensures Coherent(WithDisk(s, drive, disk)) && SafeBoots(WithDisk(s, drive, disk))
  {
  }

  lemma FormatCoherent(s: Sys, drive: int, oem: seq<byte>)
    requires Coherent(s) && SafeBoots(s) && |DiskOf(s, drive)| < WORD
    ensures Coherent(FormatSys(s, drive, oem)) && SafeBoots(FormatSys(s, drive, oem))
  {
    var total := |DiskOf(s, drive)|;
    if total > 0 {
      BootSectorParses(total, oem);
      var d := FormatDisk(total, oem);
      assert d[0] == BootSector(total, GeometryOf(total), oem);
      assert ParseBpb(d[0]).reserved == 1;
      var s' := FormatSys(s, drive, oem);
      hide FormatDisk, GeometryOf, BootSector;
      forall e | e in s'.media && HasBootSector(s'.media[e]) && ValidBpb(ParseBpb(s'.media[e][0]))
        ensures SafeReserved(ParseBpb(s'.media[e][0]))
      {
      }
    }
  }

  lemma StepCoherent(s: Sys, op: SysOp)
    requires Callable(s, op) && Coherent(s) && SafeBoots(s)
    ensures Coherent(Step(s, op)) && SafeBoots(Step(s, op))
  {
    match op
    case Format(d, oem) => FormatCoherent(s, d, oem);
    case Read(d) => MountCoherent(s, d);
    case Write(d, name, data, stack) =>
      MountCoherent(s, d);
      var b := Ready(s, d);
      if b.Some? {
        WriteBoot(DiskOf(s, d), b.value, name, data, stack);
        SameBootCoherent(Mounted(s, d), d, WriteFile(DiskOf(s, d), b.value, name, data, stack).0);
      }
  }

  /** Cache coherence on every run over every drive, provided no mountable device has a reserved
      count that is a multiple of 256 to begin with; formatting never creates one. */
  lemma {:induction false} RunCoherent(s: Sys, ops: seq<SysOp>)
    requires Runnable(s, ops) && Coherent(s) && SafeBoots(s)
    ensures Coherent(Run(s, ops)) && SafeBoots(Run(s, ops))
    decreases |ops|
  {
    if ops != [] {
      StepCoherent(s, ops[0]);
      RunCoherent(Step(s, ops[0]), ops[1..]);
    }
  }

  // ---- The other case ----

  /** Sector `x` is a boot sector with these parameters. */
  predicate ReadsAs(x: Sector, b: Bpb) {
    x[510] == 0x55 && x[511] == 0xAA && ParseBpb(x) == b
  }

  /** Exactly when the cache is still right after a write to a mounted drive: the reserved count is
      no multiple of 256, or nothing was allocated, or the first sector of the table with the new chain,
      which lands on sector 0, happens to read as the same BPB. */
  lemma CoherentAfterWrite(s: Sys, drive: int, name: seq<byte>, data: seq<byte>, stack: seq<byte>)
    requires Coherent(s) && Ready(s, drive).Some? && Safe(s, drive)
    requires |stack| == FAT_BUFFER && |data| < 0x1_0000_0000
    ensures var disk, b := DiskOf(s, drive), Ready(s, drive).value;
            var chain := AllocChain(disk, b, ClustersNeeded(b, |data|));
            Coherent(WriteFileSys(s, drive, name, data, stack).0)
            <==> SafeReserved(b) || chain == [] || ReadsAs(SectorOf(LinkedBytes(FatOf(disk, b), chain), 0), b)
  {
    var disk, b := DiskOf(s, drive), Ready(s, drive).value;
    assert |disk| > 0 && ReadsAs(disk[0], b);
    WriteBoot(disk, b, name, data, stack);
    hide WriteFile, ParseBpb, AllocChain, LinkedBytes, FatOf, ClustersNeeded;
    var d := WriteFile(disk, b, name, data, stack).0;
    DiskAfter(Mounted(s, drive), drive, d);
  }

  /** A device of 300 sectors with 256 reserved ones, otherwise empty. */
  function OddBoot(): Sector {
    Zeros(12) + [0x02, 1, 0, 1, 1, 16, 0, 0, 0, 0, 1, 0] + Zeros(486) + [0x55, 0xAA]
  }

  function OddDisk(): (d: Disk)
    ensures |d| == 300 && d[0] == OddBoot() && forall j :: 1 <= j < 300 ==> d[j] == Zeros(512)
  {
    [OddBoot()] + seq(299, j => Zeros(512))
  }

  /** There the first write leaves a cache that no longer matches sector 0. */
  lemma StaleCache(stack: seq<byte>)
    requires |stack| == FAT_BUFFER
    ensures var s := Sys(map[0 := OddDisk()], None);
            && Coherent(s) && Ready(s, 0).Some? && Safe(s, 0)
            && !Coherent(WriteFileSys(s, 0, [0x41], [1], stack).0)
  {
    var s := Sys(map[0 := OddDisk()], None);
    var disk, b := OddDisk(), Bpb(512, 1, 256, 1, 16, 1);
    assert OddBoot()[510] == 0x55 && OddBoot()[511] == 0xAA && ParseBpb(OddBoot()) == b;
    assert Ready(s, 0) == Some(b);
    CoherentAfterWrite(s, 0, [0x41], [1], stack);
    OddTable();
  }

  lemma OddTable()
    ensures BootAfterWrite(OddDisk(), Bpb(512, 1, 256, 1, 16, 1), 1)[510] == 0
  {
    var disk, b := OddDisk(), Bpb(512, 1, 256, 1, 16, 1);
    var fat := FatOf(disk, b);
    forall i | 0 <= i < 512
      ensures fat[i] == 0
    {
      assert fat[i] == disk[256 + i / 512][i % 512];
    }
    assert ClustersNeeded(b, 1) == 1;
    ZeroEntries(fat);
    OddChain(Entries(fat)[..MaxClusters(b)]);
    assert AllocChain(disk, b, 1) == [2];
    MarkTwo(fat);
    hide AllocChain, ClustersNeeded, LinkedBytes, FatOf, OddDisk;
    assert !SafeReserved(b);
  }

  lemma OddChain(t: seq<nat>)
    requires |t| > 2 && t[2] == 0
    ensures FirstFree(t, 2, 1) == [2]
  {
    FirstFreeHit(t, 2, 1);
  }

  lemma MarkTwo(fat: seq<byte>)
    requires |fat| == 512 && fat[510] == 0
    ensures Linkable(fat, [2]) && LinkedBytes(fat, [2])[510] == 0
  {
    assert LinkingBytes(fat, [2]) == fat;
    assert Offset(2) == 3;
  }
}
