/** The FAT12 driver: the BPB cache, the sector transfers and the loops of the C routines, each
    proved to compute what Fat12Volume says. */
module Fat12Driver {
  import opened Bytes
  import opened Options
  import opened Ide
  import opened FatTable
  import opened Fat12Codec
  import opened Fat12Volume

  // ---- The driver's state as a value ----

  /** The media of all drives, and the cached BPB with the drive it was read from. */
  datatype Sys = Sys(media: map<int, Disk>, cache: Option<(int, Bpb)>)

  /** An absent drive has no sectors. */
  function DiskOf(s: Sys, drive: int): Disk {
    if drive in s.media then s.media[drive] else []
  }

  function WithDisk(s: Sys, drive: int, disk: Disk): Sys {
    if drive in s.media then s.(media := s.media[drive := disk]) else s
  }

  lemma DiskAfter(s: Sys, drive: int, disk: Disk)
    requires |disk| == |DiskOf(s, drive)|
    ensures DiskOf(WithDisk(s, drive, disk), drive) == disk
    ensures forall d: Disk :: |d| == |disk| ==> WithDisk(WithDisk(s, drive, disk), drive, d) == WithDisk(s, drive, d)
    ensures WithDisk(s, drive, DiskOf(s, drive)) == s
  {
    if drive in s.media {
      assert s.media[drive := s.media[drive]] == s.media;
      assert forall d: Disk :: |d| == |disk| ==> WithDisk(WithDisk(s, drive, disk), drive, d).media == WithDisk(s, drive, d).media;
    }
  }

  predicate CacheHit(s: Sys, drive: int) {
    s.cache.Some? && s.cache.value.0 == drive
  }

  /** The BPB read_bpb delivers: the cached one, or the one in a boot sector with a signature. */
  function Lookup(s: Sys, drive: int): (r: Option<Bpb>) {
    if CacheHit(s, drive) then Some(s.cache.value.1)
    else if HasBootSector(DiskOf(s, drive)) then Some(ParseBpb(DiskOf(s, drive)[0]))
    else None
  }

  /** The state read_bpb leaves: a BPB read from disk is cached. */
  function Mounted(s: Sys, drive: int): (s': Sys)
    ensures Lookup(s', drive) == Lookup(s, drive)
    ensures s'.media == s.media
  {
    if Lookup(s, drive).Some? then s.(cache := Some((drive, Lookup(s, drive).value))) else s
  }

  /** The BPB a file operation works with, when it gets that far. */
  function Ready(s: Sys, drive: int): Option<Bpb> {
    if Lookup(s, drive).Some? && ValidBpb(Lookup(s, drive).value) then Lookup(s, drive) else None
  }

  /** The C routines read the whole table into a buffer of 12 sectors without checking. */
  predicate Safe(s: Sys, drive: int) {
    Ready(s, drive).Some? ==> Usable(Ready(s, drive).value)
  }

  function WriteFileSys(s: Sys, drive: int, name: seq<byte>, data: seq<byte>, stack: seq<byte>): (r: (Sys, int))
    requires Safe(s, drive) && |stack| == FAT_BUFFER && |data| < 0x1_0000_0000
  {
    var s1 := Mounted(s, drive);
    if Ready(s, drive).None? then (s1, -1)
    else
      var r := WriteFile(DiskOf(s, drive), Ready(s, drive).value, name, data, stack);
      (WithDisk(s1, drive, r.0), r.1)
  }

  function ReadFileSys(s: Sys, drive: int, name: seq<byte>, heapHasRoom: bool, stack: seq<byte>): Option<(seq<byte>, nat)>
    requires Safe(s, drive) && |stack| == FAT_BUFFER
  {
    if Ready(s, drive).None? then None
    else ReadFile(DiskOf(s, drive), Ready(s, drive).value, name, heapHasRoom, stack)
  }

  // ---- Lemmas for the loops ----

  /** Writing a table sector by sector is writing it at once. */
  lemma FatPrefix(disk: Disk, lba: nat, size: nat, fat: seq<byte>, s: nat)
    requires s < size && 512 * size <= |fat|
    ensures WriteSectors(WriteSectors(disk, lba, s, fat), lba + s, 1, SectorOf(fat, s))
         == WriteSectors(disk, lba, s + 1, fat)
  {
    WriteOneMore(disk, lba, s, fat);
  }

  /** One turn of the directory scan: slot `16 * i + j` is the `j`-th entry of the `i`-th sector. */
  lemma FindSlotInSector(disk: Disk, b: Bpb, i: nat, j: nat)
    requires i < RootSectors(b) && RootLba(b) + i < |disk| && j < 16
    ensures var first := disk[RootLba(b) + i][32 * j];
            FindSlot(disk, b, 16 * i + j) ==
            if first == 0x00 || first == 0xE5 then Some(16 * i + j) else FindSlot(disk, b, 16 * i + j + 1)
  {
    SlotInSector(disk, b, i, j);
  }

  /** How many slots the first `i` sectors of the root directory hold, unreadable ones counting none. */
  function Scanned(disk: Disk, b: Bpb, i: nat): nat {
    Min(16 * i, Slots(disk, b))
  }

  lemma ScanStep(disk: Disk, b: Bpb, i: nat)
    requires i < RootSectors(b)
    ensures RootLba(b) + i < |disk| ==> Scanned(disk, b, i) == 16 * i && Scanned(disk, b, i + 1) == 16 * i + 16
    ensures RootLba(b) + i >= |disk| ==> Scanned(disk, b, i + 1) == Scanned(disk, b, i)
  {
  }

  lemma ScanEnds(disk: Disk, b: Bpb)
    ensures Scanned(disk, b, 0) == 0 && Scanned(disk, b, RootSectors(b)) == Slots(disk, b)
  {
  }

  /** Slot `16 * i + j` is the `j`-th entry of the `i`-th sector of the root directory. */
  lemma SlotInSector(disk: Disk, b: Bpb, i: nat, j: nat)
    requires i < RootSectors(b) && RootLba(b) + i < |disk| && j < 16
    ensures 16 * i + j < Slots(disk, b)
    ensures Slot(disk, b, 16 * i + j) == disk[RootLba(b) + i][32 * j..32 * j + 32]
  {
    assert (16 * i + j) / 16 == i && (16 * i + j) % 16 == j;
  }

  /** What fat12_read_file delivers when its directory scan has come to slot `k`. */
  function SearchFrom(disk: Disk, b: Bpb, name: seq<byte>, k: nat, heapHasRoom: bool, stack: seq<byte>): Option<(seq<byte>, nat)>
    requires Usable(b) && |stack| == FAT_BUFFER
  {
    var hit := FindFile(disk, b, name, k);
    if hit == None then None else ReadSlot(disk, b, hit.value, heapHasRoom, stack)
  }

  lemma SearchInSector(disk: Disk, b: Bpb, name: seq<byte>, i: nat, j: nat, entry: seq<byte>, heapHasRoom: bool, stack: seq<byte>)
    requires Usable(b) && |stack| == FAT_BUFFER
    requires i < RootSectors(b) && RootLba(b) + i < |disk| && j < 16
    requires entry == disk[RootLba(b) + i][32 * j..32 * j + 32]
    ensures 16 * i + j < Slots(disk, b) && entry == Slot(disk, b, 16 * i + j)
    ensures SearchFrom(disk, b, name, 16 * i + j, heapHasRoom, stack) ==
            if entry[0] == 0x00 then None
            else if entry[0] != 0xE5 && IsFile(entry) && entry[..11] == name then ReadSlot(disk, b, 16 * i + j, heapHasRoom, stack)
            else SearchFrom(disk, b, name, 16 * i + j + 1, heapHasRoom, stack)
  {
    SlotInSector(disk, b, i, j);
    hide ReadSlot;
  }

  /** The first `i` sectors of the root directory have nothing to deliver. */
  ghost predicate NothingBefore(disk: Disk, b: Bpb, name: seq<byte>, i: nat, heapHasRoom: bool, stack: seq<byte>)
    requires Usable(b) && |stack| == FAT_BUFFER
  {
    SearchFrom(disk, b, name, 0, heapHasRoom, stack) == SearchFrom(disk, b, name, Scanned(disk, b, i), heapHasRoom, stack)
  }

  /** Sector `i` delivers, or has nothing either. */
  lemma SearchedSector(disk: Disk, b: Bpb, name: seq<byte>, i: nat, heapHasRoom: bool, stack: seq<byte>)
    requires Usable(b) && |stack| == FAT_BUFFER && i < RootSectors(b) && NothingBefore(disk, b, name, i, heapHasRoom, stack)
    ensures RootLba(b) + i < |disk| ==>
              SearchFrom(disk, b, name, 16 * i, heapHasRoom, stack) == SearchFrom(disk, b, name, 0, heapHasRoom, stack)
    ensures RootLba(b) + i >= |disk| || SearchFrom(disk, b, name, 16 * i, heapHasRoom, stack)
                                     == SearchFrom(disk, b, name, 16 * i + 16, heapHasRoom, stack)
            ==> NothingBefore(disk, b, name, i + 1, heapHasRoom, stack)
  {
    hide SearchFrom, RootSectors, RootLba, Scanned;
    ScanStep(disk, b, i);
  }

  lemma SearchStarts(disk: Disk, b: Bpb, name: seq<byte>, heapHasRoom: bool, stack: seq<byte>)
    requires Usable(b) && |stack| == FAT_BUFFER
    ensures NothingBefore(disk, b, name, 0, heapHasRoom, stack)
    ensures NothingBefore(disk, b, name, RootSectors(b), heapHasRoom, stack) ==>
              SearchFrom(disk, b, name, 0, heapHasRoom, stack) == None
  {
    ScanEnds(disk, b);
    SearchPast(disk, b, name, heapHasRoom, stack);
    hide SearchFrom, RootSectors, Scanned, Slots;
  }

  lemma SearchPast(disk: Disk, b: Bpb, name: seq<byte>, heapHasRoom: bool, stack: seq<byte>)
    requires Usable(b) && |stack| == FAT_BUFFER
    ensures SearchFrom(disk, b, name, Slots(disk, b), heapHasRoom, stack) == None
  {
  }

  method ZeroedBuffer(size: nat) returns (buffer: array<byte>)
    ensures fresh(buffer) && buffer.Length == size && buffer[..] == Zeros(size)
  {
    buffer := new byte[size](_ => 0);
  }

  /** The sectors of the root directory, rounded up, and the first of them. */
  method RootDir(bpb: Bpb) returns (sectors: nat, lba: nat)
    requires ValidBpb(bpb)
    ensures sectors == RootSectors(bpb) && lba == RootLba(bpb)
  {
    sectors := (bpb.rootEntries * 32 + (bpb.bytesPerSector - 1)) / bpb.bytesPerSector;
    lba := bpb.reserved + bpb.numFats * bpb.fatSize;
  }

  /** The base name and extension, padded but not yet in upper case. */
  method SplitFilename(filename: seq<byte>) returns (fatName: array<byte>)
    ensures fresh(fatName) && fatName[..] == RawName(filename)
  {
    fatName := new byte[11](_ => 0x20);
    var dot := 0;
    while dot < |filename| && filename[dot] != 0x2E
      invariant 0 <= dot <= |filename|
      invariant forall j :: 0 <= j < dot ==> filename[j] != 0x2E
    {
      dot := dot + 1;
    }
    DotUnique(filename, dot);
    var nameLen := if dot > 8 then 8 else dot;
    forall i | 0 <= i < nameLen {
      fatName[i] := filename[i];
    }
    if dot < |filename| {
      var extLen := |filename| - dot - 1;
      if extLen > 3 { extLen := 3; }
      forall i | 0 <= i < extLen {
        fatName[8 + i] := filename[dot + 1 + i];
      }
    }
  }

  method FormatFilename(filename: seq<byte>) returns (fatName: array<byte>)
    ensures fresh(fatName) && fatName[..] == FormatName(filename)
  {
    hide RawName;
    fatName := SplitFilename(filename);
    ghost var raw := RawName(filename);
    for i := 0 to 11
      invariant fatName.Length == 11
      invariant forall j :: 0 <= j < i ==> fatName[j] == Upper(raw[j])
      invariant forall j :: i <= j < 11 ==> fatName[j] == raw[j]
    {
      if 0x61 <= fatName[i] <= 0x7A {
        fatName[i] := fatName[i] - 0x20;
      }
    }
  }

  /** Clears the 32 bytes at `o` and puts the 8.3 name in front. */
  method FillName(sector: array<byte>, o: nat, filename: seq<byte>)
    requires sector.Length == 512 && o + 32 <= 512
    modifies sector
    ensures sector[..] == PutEntryBytes(old(sector[..]), o, FormatName(filename) + Zeros(21))
  {
    hide FormatName;
    forall k | 0 <= k < 32 {
      sector[o + k] := 0;
    }
    var name := FormatFilename(filename);
    forall k | 0 <= k < 11 {
      sector[o + k] := name[k];
    }
  }

  /** The 32 bytes at `o` become the directory entry. */
  method FillEntry(sector: array<byte>, o: nat, filename: seq<byte>, first: nat, size: nat)
    requires sector.Length == 512 && o + 32 <= 512
    requires first < 0x1_0000 && size < 0x1_0000_0000
    modifies sector
    ensures sector[..] == PutEntryBytes(old(sector[..]), o, DirEntry(FormatName(filename), first, size))
  {
    hide FormatName, DirEntry;
    ghost var before := sector[..];
    ghost var name := FormatName(filename);
    FillName(sector, o, filename);
    ghost var cleared := sector[..];
    assert cleared == before[..o] + (name + Zeros(21)) + before[o + 32..];
    sector[o + 11] := 0x20;
    sector[o + 26] := first % 0x100;
    sector[o + 27] := first / 0x100;
    sector[o + 28] := size % 0x100;
    sector[o + 29] := size / 0x100 % 0x100;
    sector[o + 30] := size / 0x1_0000 % 0x100;
    sector[o + 31] := size / 0x100_0000;
    DirEntryBytes(name, first, size);
    EntryFields(before, sector[..], o, name, DirEntry(name, first, size));
  }

  /** Bytes that agree field by field agree. */
  lemma EntryFields(before: seq<byte>, after: seq<byte>, o: nat, name: seq<byte>, e: seq<byte>)
    requires |before| == |after| == 512 && o + 32 <= 512 && |name| == 11 && |e| == 32
    requires forall k :: 0 <= k < o || o + 32 <= k < 512 ==> after[k] == before[k]
    requires after[o..o + 11] == name == e[..11] && after[o + 11] == e[11]
    requires after[o + 12..o + 26] == Zeros(14) == e[12..26]
    requires after[o + 26..o + 32] == e[26..]
    ensures after == PutEntryBytes(before, o, e)
  {
    assert after[o..o + 32] == after[o..o + 11] + [after[o + 11]] + after[o + 12..o + 26] + after[o + 26..o + 32];
    assert e == e[..11] + [e[11]] + e[12..26] + e[26..];
    assert after == after[..o] + after[o..o + 32] + after[o + 32..];
    assert after[..o] == before[..o] && after[o + 32..] == before[o + 32..];
  }

  lemma DotUnique(name: seq<byte>, i: nat)
    requires i <= |name|
    requires forall j :: 0 <= j < i ==> name[j] != 0x2E
    requires i < |name| ==> name[i] == 0x2E
    ensures DotAt(name) == i
  {
  }

  lemma OneSector(buf: seq<byte>, disk: Disk, lba: nat)
    requires |buf| == 512 && lba < |disk| && buf == [] + ReadSectors(disk, lba, 1) + []
    ensures buf == disk[lba]
  {
  }

  lemma PutSlotIsWrite(disk: Disk, b: Bpb, k: nat, e: seq<byte>, sector: seq<byte>)
    requires RootLba(b) + k / 16 < |disk| && |e| == 32
    requires sector == PutEntryBytes(disk[RootLba(b) + k / 16], k % 16 * 32, e)
    ensures WriteSectors(disk, RootLba(b) + k / 16, 1, sector) == PutSlot(disk, b, k, e)
  {
    assert SectorOf(sector, 0) == sector;
  }

  lemma WriteChainStep(disk: Disk, b: Bpb, fat: seq<byte>, cluster: nat, data: seq<byte>)
    requires Usable(b) && |fat| == FAT_BUFFER && data != [] && InChain(cluster)
    ensures var n := Min(|data|, ClusterBytes(b));
            var d := WriteSectors(disk, ClusterLba(b, cluster), b.sectorsPerCluster, ClusterImage(b, data));
            && WriteChain(disk, b, fat, cluster, data) ==
               (if n == |data| then d else WriteChain(d, b, fat, ReadEntry(fat, cluster), data[n..]))
            && ClosedFat(b, fat, cluster, data) ==
               (if n == |data| then WriteEntry(fat, cluster, EOC_MARK)
                else ClosedFat(b, fat, ReadEntry(fat, cluster), data[n..]))
  {
  }

  // ---- The driver ----

  class Driver {
    const ide: Controller
    var bpbCached: bool
    var cachedBpb: Bpb
    var cachedDrive: int

    ghost predicate Valid()
      reads ide
    {
      ide.Valid()
    }

    ghost function State(): Sys
      reads this, ide
    {
      Sys(ide.media, if bpbCached then Some((cachedDrive, cachedBpb)) else None)
    }

    constructor (ide: Controller)
      requires ide.Valid()
      ensures this.ide == ide && Valid()
      ensures State() == Sys(ide.media, None)
    {
      this.ide := ide;
      bpbCached := false;
      cachedBpb := Bpb(0, 0, 0, 0, 0, 0);
      cachedDrive := 0xFF;
    }

    method ReadBpb(drive: int) returns (r: int, bpb: Bpb)
      requires Valid()
      modifies this
      ensures State() == Mounted(old(State()), drive)
      ensures r == (if Lookup(old(State()), drive).Some? then 0 else -1)
      ensures r == 0 ==> bpb == Lookup(old(State()), drive).value
    {
      if bpbCached && cachedDrive == drive {
        return 0, cachedBpb;
      }
      bpb := Bpb(0, 0, 0, 0, 0, 0);
      var bootSector := new byte[512];
      var err := ReadSector(drive, 0, bootSector);
      if err != 0 { return -1, bpb; }
      if bootSector[510] != 0x55 || bootSector[511] != 0xAA { return -1, bpb; }
      bpb := ParseBpb(bootSector[..]);
      cachedBpb := bpb;
      bpbCached := true;
      cachedDrive := drive;
      r := 0;
    }

    /** One sector into a sector buffer. */
    method ReadSector(drive: int, lba: nat, sector: array<byte>) returns (err: nat)
      requires Valid() && sector.Length == 512
      modifies sector
      ensures err == 0 <==> lba < |DiskOf(State(), drive)|
      ensures err == 0 ==> sector[..] == DiskOf(State(), drive)[lba]
    {
      err := ide.Read(drive, 1, lba, sector, 0);
      if err == 0 {
        OneSector(sector[..], DiskOf(State(), drive), lba);
      }
    }

    /** The first copy of the table into a table buffer. */
    method ReadFat(drive: int, bpb: Bpb, fat: array<byte>) returns (err: nat)
      requires Valid() && Usable(bpb) && 512 * bpb.fatSize <= fat.Length
      modifies fat
      ensures err == 0 <==> FatReadable(DiskOf(State(), drive), bpb)
      ensures err == 0 ==> fat[..] == FatOf(DiskOf(State(), drive), bpb) + old(fat[..])[512 * bpb.fatSize..]
    {
      err := ide.Read(drive, bpb.fatSize, bpb.reserved, fat, 0);
    }

    method Transfer(drive: int, numsects: nat, lba: nat, buf: seq<byte>) returns (err: nat)
      requires Valid() && 1 <= numsects < 0x100 && 512 * numsects <= |buf|
      modifies ide
      ensures Valid()
      ensures State().media.Keys == old(State()).media.Keys
      ensures lba < LBA_LIMIT && drive in State().media ==> err == 0
      ensures State() == WithDisk(old(State()), drive, WriteSectors(DiskOf(old(State()), drive), lba, numsects, buf))
    {
      err := ide.Write(drive, numsects, lba, buf);
    }

    /** fat12_write_fat; the reserved count arrives as 8 bits. */
    method WriteFat(drive: int, numFats: nat, fatSize: nat, fat: seq<byte>, reserved8: nat)
      requires Valid() && 512 * fatSize <= |fat|
      modifies ide
      ensures Valid()
      ensures State() == WithDisk(old(State()), drive,
                                  WriteFats(DiskOf(old(State()), drive), numFats, fatSize, fat, reserved8))
    {
      ghost var s0, disk := State(), DiskOf(State(), drive);
      DiskAfter(s0, drive, disk);
      hide DiskOf, WithDisk;
      for i := 0 to numFats
        invariant Valid()
        invariant State() == WithDisk(s0, drive, WriteFats(disk, i, fatSize, fat, reserved8))
      {
        var fatStart := reserved8 + i * fatSize;
        ghost var before := WriteFats(disk, i, fatSize, fat, reserved8);
        assert WriteSectors(before, fatStart, 0, fat) == before;
        for s := 0 to fatSize
          invariant Valid()
          invariant State() == WithDisk(s0, drive, WriteSectors(before, fatStart, s, fat))
        {
          FatPrefix(before, fatStart, fatSize, fat, s);
          DiskAfter(s0, drive, WriteSectors(before, fatStart, s, fat));
          var _ := Transfer(drive, 1, fatStart + s, SectorOf(fat, s));
        }
      }
    }

    /** fat12_alloc_clusters: the first cluster of the new chain, or 0. */
    method AllocClusters(drive: int, count: nat) returns (first: nat)
      requires Valid() && Safe(State(), drive) && count < 0x1_0000
      modifies this, ide
      ensures Valid()
      ensures var b := Ready(old(State()), drive);
              var disk := DiskOf(old(State()), drive);
              if b.None? then first == 0 && State() == Mounted(old(State()), drive)
              else
                var chain := AllocChain(disk, b.value, count);
                && first == (if chain == [] then 0 else chain[0])
                && State() == WithDisk(Mounted(old(State()), drive), drive,
                                       Fat12Volume.AllocClusters(disk, b.value, count))
    {
      ghost var s0, disk := State(), DiskOf(State(), drive);
      var r, bpb := ReadBpb(drive);
      if r != 0 || !ValidBpb(bpb) { return 0; }
      DiskAfter(State(), drive, disk);
      AllocCases(disk, bpb, count);
      hide DiskOf, WithDisk, Mounted, Lookup, Entries, FirstFree, LinkedBytes, WriteFats, AllocOutcome,
           AllocChain, Fat12Volume.AllocClusters;
      var fat := new byte[512 * bpb.fatSize];
      var err := ReadFat(drive, bpb, fat);
      if err != 0 { return 0; }
      assert fat[..] == FatOf(disk, bpb);
      var fatBytes := bpb.fatSize * bpb.bytesPerSector;
      var maxClusters := fatBytes * 2 / 3 % 0x1_0000;
      if maxClusters > 4085 { maxClusters := 4085; }
      if maxClusters < 3 { return 0; }
      assert maxClusters == MaxClusters(bpb);
      first := LinkFree(fat, maxClusters, count);
      if first != 0 {
        WriteFat(drive, bpb.numFats, bpb.fatSize, fat[..], bpb.reserved % 0x100);
      }
    }

    /** fat12_find_free_root_dir_entry */
    method FindFreeRootDirEntry(drive: int, bpb: Bpb) returns (index: int)
      requires Valid() && ValidBpb(bpb)
      ensures var k := FindSlot(DiskOf(State(), drive), bpb, 0);
              index == if k.Some? then k.value else -1
    {
      ghost var disk := DiskOf(State(), drive);
      var rootDirSectors, rootDirLba := RootDir(bpb);
      hide FindSlot, Slots, ReadSectors, RootSectors, RootLba, DiskOf, Scanned, ValidBpb;
      ScanEnds(disk, bpb);
      var sector := new byte[512];
      var i := 0;
      while i < rootDirSectors
        invariant 0 <= i <= rootDirSectors == RootSectors(bpb)
        invariant FindSlot(disk, bpb, 0) == FindSlot(disk, bpb, Scanned(disk, bpb, i))
      {
        ScanStep(disk, bpb, i);
        var err := ReadSector(drive, rootDirLba + i, sector);
        if err == 0 {
          index := FreeInSector(disk, bpb, i, sector[..]);
          if index != -1 { return; }
        }
        i := i + 1;
      }
      FindSlotPast(disk, bpb);
      index := -1;
    }

    /** The inner loop of that scan: the 16 entries of sector `i` of the root directory. */
    method FreeInSector(ghost disk: Disk, bpb: Bpb, i: nat, sector: Sector) returns (index: int)
      requires i < RootSectors(bpb) && RootLba(bpb) + i < |disk| && sector == disk[RootLba(bpb) + i]
      ensures index >= -1
      ensures FindSlot(disk, bpb, 16 * i) == if index == -1 then FindSlot(disk, bpb, 16 * i + 16) else Some(index)
    {
      hide FindSlot, RootSectors, RootLba;
      var j := 0;
      while j < 16
        invariant 0 <= j <= 16
        invariant FindSlot(disk, bpb, 16 * i) == FindSlot(disk, bpb, 16 * i + j)
      {
        FindSlotInSector(disk, bpb, i, j);
        if sector[32 * j] == 0x00 || sector[32 * j] == 0xE5 {
          return 16 * i + j;
        }
        j := j + 1;
      }
      index := -1;
    }

    /** fat12_write_dir_entry: read, replace 32 bytes, write back; nothing when the sector cannot be read. */
    method WriteDirEntry(drive: int, bpb: Bpb, index: nat, filename: seq<byte>, first: nat, size: nat)
      requires Valid() && ValidBpb(bpb) && first < 0x1_0000 && size < 0x1_0000_0000
      modifies ide
      ensures Valid()
      ensures State() == if RootLba(bpb) + index / 16 >= |DiskOf(old(State()), drive)| then old(State())
                         else WithDisk(old(State()), drive,
                                       PutSlot(DiskOf(old(State()), drive), bpb, index,
                                               DirEntry(FormatName(filename), first, size)))
    {
      ghost var disk := DiskOf(State(), drive);
      var lba := bpb.reserved + bpb.numFats * bpb.fatSize;
      var entriesPerSector := bpb.bytesPerSector / 32;
      var sectorIndex := index / entriesPerSector;
      var entryOffset := index % entriesPerSector * 32;
      var sector := new byte[512];
      var err := ReadSector(drive, lba + sectorIndex, sector);
      if err != 0 { return; }
      ghost var e := DirEntry(FormatName(filename), first, size);
      hide DirEntry, FormatName, DiskOf, WithDisk;
      FillEntry(sector, entryOffset, filename, first, size);
      var _ := Transfer(drive, 1, lba + sectorIndex, sector[..]);
      PutSlotIsWrite(disk, bpb, index, e, sector[..]);
    }

    /** The end of fat12_write_clusters: every copy of the table, with the full reserved count. */
    method WriteTables(drive: int, bpb: Bpb, fat: seq<byte>)
      requires Valid() && Usable(bpb) && |fat| == FAT_BUFFER
      modifies ide
      ensures Valid()
      ensures State() == WithDisk(old(State()), drive,
                                  WriteFats(DiskOf(old(State()), drive), bpb.numFats, bpb.fatSize, fat, bpb.reserved))
    {
      ghost var s0, disk := State(), DiskOf(State(), drive);
      DiskAfter(s0, drive, disk);
      hide DiskOf, WithDisk;
      for i := 0 to bpb.numFats
        invariant Valid()
        invariant State() == WithDisk(s0, drive, WriteFats(disk, i, bpb.fatSize, fat, bpb.reserved))
      {
        var fatStartLba := bpb.reserved + i * bpb.fatSize;
        DiskAfter(s0, drive, WriteFats(disk, i, bpb.fatSize, fat, bpb.reserved));
        var _ := Transfer(drive, bpb.fatSize, fatStartLba, fat);
      }
    }

    /** The loop of fat12_write_clusters: cluster after cluster along the table in memory. */
    method WriteData(drive: int, bpb: Bpb, fat: array<byte>, firstCluster: nat, data: seq<byte>)
      requires Valid() && Usable(bpb) && fat.Length == FAT_BUFFER
      requires drive in State().media  // its table was just read
      modifies ide, fat
      ensures Valid()
      ensures State() == WithDisk(old(State()), drive,
                                  WriteChain(DiskOf(old(State()), drive), bpb, old(fat[..]), firstCluster, data))
      ensures fat[..] == ClosedFat(bpb, old(fat[..]), firstCluster, data)
    {
      ghost var s0, disk, table := State(), DiskOf(State(), drive), fat[..];
      ghost var image := WriteChain(disk, bpb, table, firstCluster, data);
      ghost var closed := ClosedFat(bpb, table, firstCluster, data);
      ghost var now := disk;
      DiskAfter(s0, drive, disk);
      hide WriteChain, ClosedFat, ReadEntry, WriteEntry, WriteSectors, ClusterImage, DiskOf, WithDisk;
      var rootDirSectors, rootDirLba := RootDir(bpb);
      var dataStartLba := rootDirLba + rootDirSectors;
      var clusterSize := bpb.bytesPerSector * bpb.sectorsPerCluster;
      var current: nat := firstCluster;
      var remaining := data;
      while |remaining| > 0 && 2 <= current < 0xFF8
        invariant Valid()
        invariant drive in State().media
        invariant |now| == |disk| && State() == WithDisk(s0, drive, now)
        invariant fat[..] == table
        invariant WriteChain(now, bpb, table, current, remaining) == image
        invariant ClosedFat(bpb, table, current, remaining) == closed
        decreases |remaining|
      {
        LbaInRange(bpb, current);
        WriteChainStep(now, bpb, table, current, remaining);
        DiskAfter(s0, drive, now);
        var lba := dataStartLba + (current - 2) * bpb.sectorsPerCluster;
        assert lba == ClusterLba(bpb, current);
        var toWrite := if |remaining| > clusterSize then clusterSize else |remaining|;
        var clusterData := remaining[..toWrite] + Zeros(clusterSize - toWrite);
        ImageOf(bpb, remaining);
        var werr := Transfer(drive, bpb.sectorsPerCluster, lba, clusterData);
        now := WriteSectors(now, lba, bpb.sectorsPerCluster, clusterData);
        if werr != 0 { assert false; }
        if |remaining| > toWrite {
          current := GetEntry(fat, current);
          remaining := remaining[toWrite..];
        } else {
          PutEntry(fat, current, 0xFFF);
          return;
        }
      }
      ChainDone(now, bpb, table, current, remaining);
    }

    /** fat12_write_clusters */
    method WriteClusters(drive: int, firstCluster: nat, data: seq<byte>, stack: seq<byte>)
      requires Valid() && Safe(State(), drive) && |stack| == FAT_BUFFER
      modifies this, ide
      ensures Valid()
      ensures var b := Ready(old(State()), drive);
              State() == if b.None? then Mounted(old(State()), drive)
                         else WithDisk(Mounted(old(State()), drive), drive,
                                       Fat12Volume.WriteClusters(DiskOf(old(State()), drive), b.value,
                                                                 firstCluster, data, stack))
    {
      ghost var disk := DiskOf(State(), drive);
      var r, bpb := ReadBpb(drive);
      if r != 0 || !ValidBpb(bpb) { return; }
      ghost var s1 := State();
      DiskAfter(s1, drive, disk);
      hide DiskOf, WithDisk, WriteChain, ClosedFat;
      var fat := new byte[512 * 12](i requires 0 <= i < FAT_BUFFER => stack[i]);
      assert fat[..] == stack;
      var err := ReadFat(drive, bpb, fat);
      if err != 0 { return; }
      FatPresent(s1, drive, bpb);
      ghost var table := FatBuffer(disk, bpb, stack);
      assert fat[..] == table;
      WriteData(drive, bpb, fat, firstCluster, data);
      DiskAfter(s1, drive, WriteChain(disk, bpb, table, firstCluster, data));
      WriteTables(drive, bpb, fat[..]);
    }

    /** fat12_write_file: 0, -1 (no volume), -2 (no free clusters) or -3 (no free directory slot). */
    method WriteFile(drive: int, filename: seq<byte>, data: seq<byte>, stack: seq<byte>) returns (r: int)
      requires Valid() && Safe(State(), drive)
      requires |stack| == FAT_BUFFER && |data| < 0x1_0000_0000
      modifies this, ide
      ensures Valid()
      ensures (State(), r) == WriteFileSys(old(State()), drive, filename, data, stack)
    {
      ghost var s0, disk := State(), DiskOf(State(), drive);
      var e, bpb := ReadBpb(drive);
      if e != 0 || !ValidBpb(bpb) { return -1; }
      var clusterSize := bpb.bytesPerSector * bpb.sectorsPerCluster;
      var clustersNeeded := (|data| + clusterSize - 1) % 0x1_0000_0000 / clusterSize % 0x1_0000;
      if clustersNeeded == 0 { clustersNeeded := 1; }
      assert clustersNeeded == ClustersNeeded(bpb, |data|);
      ghost var d1 := Fat12Volume.AllocClusters(disk, bpb, clustersNeeded);
      StaysMounted(s0, drive, disk);
      StaysMounted(s0, drive, d1);
      DiskAfter(Mounted(s0, drive), drive, disk);
      DiskAfter(Mounted(s0, drive), drive, d1);
      AllocNone(disk, bpb, clustersNeeded);
      WriteFileCases(s0, drive, filename, data, stack);
      assert Ready(s0, drive) == Some(bpb) && disk == DiskOf(s0, drive);
      hide DiskOf, WithDisk, Mounted, Ready, Lookup, AllocChain, Slots, FindSlot, PutSlot, DirEntry, FormatName,
           Fat12Volume.AllocClusters, Fat12Volume.WriteClusters, ClustersNeeded, Fat12Volume.WriteFile, WriteFileSys;
      var firstCluster := AllocClusters(drive, clustersNeeded);
      if firstCluster == 0 { return -2; }
      r := WriteEntryAndData(drive, bpb, filename, firstCluster, data, stack);
    }

    /** The part of fat12_write_file behind the allocation. */
    method WriteEntryAndData(drive: int, bpb: Bpb, filename: seq<byte>, firstCluster: nat, data: seq<byte>, stack: seq<byte>)
      returns (r: int)
      requires Valid() && Usable(bpb) && Ready(State(), drive) == Some(bpb) && Mounted(State(), drive) == State()
      requires |stack| == FAT_BUFFER && |data| < 0x1_0000_0000 && firstCluster < 0x1_0000
      modifies this, ide
      ensures Valid()
      ensures (State(), r) == FiledSys(old(State()), drive, bpb, filename, firstCluster, data, stack)
    {
      ghost var s, disk := State(), DiskOf(State(), drive);
      DiskAfter(s, drive, disk);
      StaysReady(s, drive, bpb);
      hide DiskOf, WithDisk, Mounted, Ready, Lookup, FindSlot, PutSlot, DirEntry, FormatName, Fat12Volume.WriteClusters, ValidBpb;
      var dirEntry := FindFreeRootDirEntry(drive, bpb);
      if dirEntry == -1 { return -3; }
      SlotReadable(disk, bpb, dirEntry);
      WriteDirEntry(drive, bpb, dirEntry, filename, firstCluster, |data|);
      ghost var d := PutSlot(disk, bpb, dirEntry, DirEntry(FormatName(filename), firstCluster, |data|));
      DiskAfter(s, drive, d);
      StaysReady(WithDisk(s, drive, d), drive, bpb);
      WriteClusters(drive, firstCluster, data, stack);
      r := 0;
    }

    /** The loop of fat12_read_file: follows the table in memory and fills a zeroed buffer. */
    method ReadData(drive: int, bpb: Bpb, fat: seq<byte>, firstCluster: nat, fileSize: nat)
      returns (ok: bool, buffer: array<byte>, bytesRead: nat)
      requires Valid() && Usable(bpb) && |fat| == FAT_BUFFER
      ensures var r := ReadChain(DiskOf(State(), drive), bpb, fat, firstCluster, fileSize);
              && ok == r.Some?
              && (ok ==> fresh(buffer) && bytesRead == |r.value| <= buffer.Length == fileSize
                         && buffer[..] == r.value + Zeros(fileSize - bytesRead))
    {
      ghost var disk := DiskOf(State(), drive);
      buffer := ZeroedBuffer(fileSize);
      bytesRead := 0;
      ghost var got: seq<byte> := [];
      ReadBegins(disk, bpb, fat, firstCluster, fileSize);
      hide ReadChain, DiskOf, Zeros, ReadSoFar, Usable, ValidBpb;
      var cluster: nat := firstCluster;
      while 2 <= cluster < 0xFF8 && bytesRead < fileSize
        invariant fresh(buffer) && bytesRead <= fileSize == buffer.Length
        invariant ReadSoFar(disk, bpb, fat, firstCluster, fileSize, cluster, bytesRead, got, buffer[..])
        decreases fileSize - bytesRead
      {
        var err, n;
        err, n, cluster, got := ReadTurn(drive, bpb, fat, firstCluster, fileSize, cluster, bytesRead, buffer, got);
        if err != 0 { return false, buffer, bytesRead; }
        bytesRead := bytesRead + n;
      }
      ReadEnds(disk, bpb, fat, firstCluster, fileSize, cluster, bytesRead, got, buffer[..]);
      ok := true;
    }

    /** One turn of that loop. */
    method ReadTurn(drive: int, bpb: Bpb, fat: seq<byte>, ghost first: nat, size: nat, cluster: nat, at: nat, buffer: array<byte>,
                    ghost got: seq<byte>)
      returns (err: nat, n: nat, next: nat, ghost got': seq<byte>)
      requires Valid() && Usable(bpb) && |fat| == FAT_BUFFER && InChain(cluster) && at < size == buffer.Length
      requires ReadSoFar(DiskOf(State(), drive), bpb, fat, first, size, cluster, at, got, buffer[..])
      modifies buffer
      ensures err != 0 ==> ReadChain(DiskOf(State(), drive), bpb, fat, first, size) == None
      ensures err == 0 ==> 0 < n <= size - at
                           && ReadSoFar(DiskOf(State(), drive), bpb, fat, first, size, next, at + n, got', buffer[..])
    {
      ghost var disk := DiskOf(State(), drive);
      var clusterSize := bpb.bytesPerSector * bpb.sectorsPerCluster;
      assert clusterSize == ClusterBytes(bpb);
      hide ReadChain, DiskOf, ReadEntry, ReadSectors, Zeros, ClusterLba, ReadSoFar;
      var lba := ClusterLba(bpb, cluster);
      n := if size - at > clusterSize then clusterSize else size - at;
      ReadGoesOn(disk, bpb, fat, first, size, cluster, at, got, buffer[..], n);
      next := ReadEntry(fat, cluster);
      err := ReadPiece(drive, bpb, lba, n, buffer, at, size, got);
      got' := if err == 0 then got + ReadSectors(disk, lba, bpb.sectorsPerCluster)[..n] else got;
    }

    /** One cluster into a local buffer, and its first `n` bytes behind what was read so far. */
    method ReadPiece(drive: int, bpb: Bpb, lba: nat, n: nat, buffer: array<byte>, at: nat, ghost size: nat, ghost got: seq<byte>)
      returns (err: nat)
      requires Valid() && ValidBpb(bpb) && n <= ClusterBytes(bpb) && at + n <= size == buffer.Length
      requires |got| == at && buffer[..] == got + Zeros(size - at)
      modifies buffer
      ensures err == 0 <==> lba + bpb.sectorsPerCluster <= |DiskOf(State(), drive)|
      ensures err == 0 ==>
                buffer[..] == got + ReadSectors(DiskOf(State(), drive), lba, bpb.sectorsPerCluster)[..n]
                              + Zeros(size - (at + n))
    {
      var clusterData := new byte[ClusterBytes(bpb)];
      err := ReadCluster(drive, bpb, lba, clusterData);
      if err != 0 { return; }
      forall k | 0 <= k < n {
        buffer[at + k] := clusterData[k];
      }
    }

    method ReadCluster(drive: int, bpb: Bpb, lba: nat, clusterData: array<byte>) returns (err: nat)
      requires Valid() && ValidBpb(bpb) && clusterData.Length == ClusterBytes(bpb)
      modifies clusterData
      ensures err == 0 <==> lba + bpb.sectorsPerCluster <= |DiskOf(State(), drive)|
      ensures err == 0 ==> clusterData[..] == ReadSectors(DiskOf(State(), drive), lba, bpb.sectorsPerCluster)
    {
      err := ide.Read(drive, bpb.sectorsPerCluster, lba, clusterData, 0);
    }

    /** The part of fat12_read_file that follows a directory hit. */
    method ReadHit(drive: int, bpb: Bpb, ghost k: nat, entry: seq<byte>, heapHasRoom: bool, stack: seq<byte>)
      returns (r: Option<(seq<byte>, nat)>)
      requires Valid() && Usable(bpb) && |stack| == FAT_BUFFER
      requires k < Slots(DiskOf(State(), drive), bpb) && entry == Slot(DiskOf(State(), drive), bpb, k)
      ensures r == ReadSlot(DiskOf(State(), drive), bpb, k, heapHasRoom, stack)
    {
      ghost var disk := DiskOf(State(), drive);
      hide ReadChain, DiskOf, Slot, U16, U32;
      var cluster := U16(entry, 26);
      var fileSize := U32(entry, 28);
      if !(1 <= fileSize <= 0x1000_0000 && heapHasRoom) { return None; }
      var fat := new byte[512 * 12](i requires 0 <= i < FAT_BUFFER => stack[i]);
      assert fat[..] == stack;
      var err := ReadFat(drive, bpb, fat);
      if err != 0 { return None; }
      assert fat[..] == FatBuffer(disk, bpb, stack);
      var ok, buffer, bytesRead := ReadData(drive, bpb, fat[..], cluster, fileSize);
      if !ok { return None; }
      r := Some((buffer[..], bytesRead));
    }

    /** fat12_read_file: the filled buffer and the number of bytes read, or nothing. */
    method ReadFile(drive: int, filename: seq<byte>, heapHasRoom: bool, stack: seq<byte>)
      returns (r: Option<(seq<byte>, nat)>)
      requires Valid() && Safe(State(), drive) && |stack| == FAT_BUFFER
      modifies this
      ensures State() == Mounted(old(State()), drive)
      ensures r == ReadFileSys(old(State()), drive, filename, heapHasRoom, stack)
    {
      ghost var s0, disk := State(), DiskOf(State(), drive);
      ReadFileCases(s0, drive, filename, heapHasRoom, stack);
      hide ReadFileSys;
      var e, bpb := ReadBpb(drive);
      if e != 0 || !ValidBpb(bpb) { return None; }
      var fatFilename := FormatFilename(filename);
      r := Search(drive, bpb, fatFilename[..], heapHasRoom, stack);
    }

    /** The inner loop of that scan: the 16 entries of sector `i` of the root directory. */
    method SearchSector(drive: int, ghost disk: Disk, bpb: Bpb, i: nat, sector: Sector, fatFilename: seq<byte>, heapHasRoom: bool,
                        stack: seq<byte>)
      returns (done: bool, r: Option<(seq<byte>, nat)>)
      requires Valid() && Usable(bpb) && |stack| == FAT_BUFFER && disk == DiskOf(State(), drive)
      requires i < RootSectors(bpb) && RootLba(bpb) + i < |disk|
      requires sector == disk[RootLba(bpb) + i]
      ensures SearchFrom(disk, bpb, fatFilename, 16 * i, heapHasRoom, stack)
           == if done then r else SearchFrom(disk, bpb, fatFilename, 16 * i + 16, heapHasRoom, stack)
    {
      hide FindFile, Slots, Slot, IsFile, DiskOf, ReadSlot, SearchFrom, RootSectors, RootLba;
      var j := 0;
      r := None;
      while j < 16
        invariant 0 <= j <= 16
        invariant SearchFrom(disk, bpb, fatFilename, 16 * i, heapHasRoom, stack)
               == SearchFrom(disk, bpb, fatFilename, 16 * i + j, heapHasRoom, stack)
      {
        var entry := sector[32 * j..32 * j + 32];
        SearchInSector(disk, bpb, fatFilename, i, j, entry, heapHasRoom, stack);
        if entry[0] == 0x00 { return true, None; }
        if entry[0] != 0xE5 && IsFile(entry) && entry[..11] == fatFilename {
          r := ReadHit(drive, bpb, 16 * i + j, entry, heapHasRoom, stack);
          return true, r;
        }
        j := j + 1;
      }
      done := false;
    }

    /** The directory scan of fat12_read_file. */
    method Search(drive: int, bpb: Bpb, fatFilename: seq<byte>, heapHasRoom: bool, stack: seq<byte>)
      returns (r: Option<(seq<byte>, nat)>)
      requires Valid() && Usable(bpb) && |stack| == FAT_BUFFER
      ensures r == SearchFrom(DiskOf(State(), drive), bpb, fatFilename, 0, heapHasRoom, stack)
    {
      ghost var disk := DiskOf(State(), drive);
      var rootDirSectors, rootDirLba := RootDir(bpb);
      hide Slots, DiskOf, SearchFrom, RootSectors, RootLba, Usable, ValidBpb, NothingBefore;
      SearchStarts(disk, bpb, fatFilename, heapHasRoom, stack);
      var sector := new byte[512];
      var i := 0;
      while i < rootDirSectors
        invariant 0 <= i <= rootDirSectors == RootSectors(bpb)
        invariant NothingBefore(disk, bpb, fatFilename, i, heapHasRoom, stack)
      {
        SearchedSector(disk, bpb, fatFilename, i, heapHasRoom, stack);
        var err := ReadSector(drive, rootDirLba + i, sector);
        if err == 0 {
          var done;
          done, r := SearchSector(drive, disk, bpb, i, sector[..], fatFilename, heapHasRoom, stack);
          if done { return; }
        }
        i := i + 1;
      }
      r := None;
    }
  }

  /** Once the BPB is cached, changing the disk's contents does not change the volume in use. */
  lemma StaysMounted(s: Sys, drive: int, disk: Disk)
    requires Lookup(s, drive).Some?
    ensures var s1 := WithDisk(Mounted(s, drive), drive, disk);
            && Ready(s1, drive) == Ready(s, drive)
            && Mounted(s1, drive) == s1
            && (Safe(s, drive) ==> Safe(s1, drive))
  {
  }

  /** What fat12_write_file does once its clusters are allocated, on a volume in use. */
  function FiledSys(s: Sys, drive: int, b: Bpb, name: seq<byte>, first: nat, data: seq<byte>, stack: seq<byte>): (Sys, int)
    requires Usable(b) && |stack| == FAT_BUFFER && |data| < 0x1_0000_0000 && first < 0x1_0000
  {
    var disk := DiskOf(s, drive);
    var slot := FindSlot(disk, b, 0);
    if slot == None then (s, -3)
    else
      var d := PutSlot(disk, b, slot.value, DirEntry(FormatName(name), first, |data|));
      (WithDisk(s, drive, Fat12Volume.WriteClusters(d, b, first, data, stack)), 0)
  }

  /** A volume in use stays in use when the disk's contents change. */
  lemma StaysReady(s: Sys, drive: int, b: Bpb)
    requires Usable(b) && Ready(s, drive) == Some(b) && Mounted(s, drive) == s
    ensures Safe(s, drive)
    ensures forall disk :: Ready(WithDisk(s, drive, disk), drive) == Some(b)
                           && Mounted(WithDisk(s, drive, disk), drive) == WithDisk(s, drive, disk)
  {
  }

  lemma SlotReadable(disk: Disk, b: Bpb, k: nat)
    requires k < Slots(disk, b)
    ensures RootLba(b) + k / 16 < |disk|
  {
  }

  /** The outcomes of an allocation, as the driver distinguishes them. */
  lemma AllocCases(disk: Disk, b: Bpb, count: nat)
    requires Usable(b) && count < 0x1_0000
    ensures var chain, d := AllocChain(disk, b, count), Fat12Volume.AllocClusters(disk, b, count);
            if !FatReadable(disk, b) || MaxClusters(b) < 3 then chain == [] && d == disk
            else
              var found := FirstFree(Entries(FatOf(disk, b))[..MaxClusters(b)], 2, count);
              if count > 0 && |found| == count
              then chain == found && found[0] != 0
                   && d == WriteFats(disk, b.numFats, b.fatSize, LinkedBytes(FatOf(disk, b), found), b.reserved % 0x100)
              else chain == [] && d == disk
  {
  }

  lemma AllocNone(disk: Disk, b: Bpb, count: nat)
    requires Usable(b) && count < 0x1_0000
    ensures AllocChain(disk, b, count) == [] ==> Fat12Volume.AllocClusters(disk, b, count) == disk
    ensures AllocChain(disk, b, count) != [] ==> AllocChain(disk, b, count)[0] != 0
  {
  }

  /** The exits of fat12_write_file, with the state each one leaves. */
  lemma WriteFileCases(s: Sys, drive: int, name: seq<byte>, data: seq<byte>, stack: seq<byte>)
    requires Ready(s, drive).Some? && Safe(s, drive) && |stack| == FAT_BUFFER && |data| < 0x1_0000_0000
    ensures var b, disk, s1 := Ready(s, drive).value, DiskOf(s, drive), Mounted(s, drive);
            var count := ClustersNeeded(b, |data|);
            var chain := AllocChain(disk, b, count);
            var d1 := Fat12Volume.AllocClusters(disk, b, count);
            var slot := FindSlot(d1, b, 0);
            WriteFileSys(s, drive, name, data, stack) ==
            if chain == [] then (WithDisk(s1, drive, disk), -2)
            else if slot == None then (WithDisk(s1, drive, d1), -3)
            else
              var d2 := PutSlot(d1, b, slot.value, DirEntry(FormatName(name), chain[0], |data|));
              (WithDisk(s1, drive, Fat12Volume.WriteClusters(d2, b, chain[0], data, stack)), 0)
  {
  }

  lemma ReadFileCases(s: Sys, drive: int, name: seq<byte>, heapHasRoom: bool, stack: seq<byte>)
    requires Safe(s, drive) && |stack| == FAT_BUFFER
    ensures ReadFileSys(s, drive, name, heapHasRoom, stack) ==
            if Ready(s, drive).None? then None
            else Fat12Volume.ReadFile(DiskOf(s, drive), Ready(s, drive).value, name, heapHasRoom, stack)
  {
  }

  function Prepend(a: seq<byte>, r: Option<seq<byte>>): Option<seq<byte>> {
    if r.None? then None else Some(a + r.value)
  }

  /** The read loop is at `cluster` with the bytes `got` at the front of the buffer; what it will deliver
      is those and what the chain gives from here. */
  ghost predicate ReadSoFar(disk: Disk, b: Bpb, fat: seq<byte>, first: nat, size: nat, cluster: nat, at: nat, got: seq<byte>, buf: seq<byte>)
  {
    && Usable(b) && |fat| == FAT_BUFFER
    && |got| == at <= size && buf == got + Zeros(size - at)
    && ReadChain(disk, b, fat, first, size) == Prepend(got, ReadChain(disk, b, fat, cluster, size - at))
  }

  lemma ReadBegins(disk: Disk, b: Bpb, fat: seq<byte>, first: nat, size: nat)
    requires Usable(b) && |fat| == FAT_BUFFER
    ensures ReadSoFar(disk, b, fat, first, size, first, 0, [], Zeros(size))
  {
    hide ReadChain;
    assert [] + Zeros(size) == Zeros(size);
    var r := ReadChain(disk, b, fat, first, size);
    assert r.Some? ==> [] + r.value == r.value;
  }

  lemma ReadGoesOn(disk: Disk, b: Bpb, fat: seq<byte>, first: nat, size: nat, cluster: nat, at: nat, got: seq<byte>, buf: seq<byte>, n: nat)
    requires ReadSoFar(disk, b, fat, first, size, cluster, at, got, buf) && InChain(cluster) && at < size
    requires n == Min(size - at, ClusterBytes(b))
    ensures |got| == at && buf == got + Zeros(size - at) && 0 < n <= 512 * b.sectorsPerCluster
    ensures ClusterLba(b, cluster) + b.sectorsPerCluster > |disk| ==> ReadChain(disk, b, fat, first, size) == None
    ensures ClusterLba(b, cluster) + b.sectorsPerCluster <= |disk| ==>
              var got' := got + ReadSectors(disk, ClusterLba(b, cluster), b.sectorsPerCluster)[..n];
              ReadSoFar(disk, b, fat, first, size, ReadEntry(fat, cluster), at + n, got', got' + Zeros(size - (at + n)))
  {
    ReadChainStep(disk, b, fat, cluster, size - at);
    hide ReadChain, ReadSectors, ClusterLba, ReadEntry, Zeros;
    if ClusterLba(b, cluster) + b.sectorsPerCluster <= |disk| {
      var piece := ReadSectors(disk, ClusterLba(b, cluster), b.sectorsPerCluster)[..n];
      PrependTwice(got, piece, ReadChain(disk, b, fat, ReadEntry(fat, cluster), size - at - n));
    }
  }

  lemma ReadEnds(disk: Disk, b: Bpb, fat: seq<byte>, first: nat, size: nat, cluster: nat, at: nat, got: seq<byte>, buf: seq<byte>)
    requires ReadSoFar(disk, b, fat, first, size, cluster, at, got, buf) && (at == size || !InChain(cluster))
    ensures ReadChain(disk, b, fat, first, size) == Some(got) && |got| == at && buf == got + Zeros(size - at)
  {
    ReadChainDone(disk, b, fat, cluster, size - at);
    assert got + [] == got;
  }

  lemma PrependTwice(a: seq<byte>, b: seq<byte>, r: Option<seq<byte>>)
    ensures Prepend(a, Prepend(b, r)) == Prepend(a + b, r)
  {
    assert r.Some? ==> a + (b + r.value) == a + b + r.value;
  }

  lemma ReadChainStep(disk: Disk, b: Bpb, fat: seq<byte>, cluster: nat, size: nat)
    requires Usable(b) && |fat| == FAT_BUFFER && size > 0 && InChain(cluster)
    ensures var n := Min(size, ClusterBytes(b));
            ReadChain(disk, b, fat, cluster, size) ==
            if ClusterLba(b, cluster) + b.sectorsPerCluster > |disk| then None
            else Prepend(ReadSectors(disk, ClusterLba(b, cluster), b.sectorsPerCluster)[..n],
                         ReadChain(disk, b, fat, ReadEntry(fat, cluster), size - n))
  {
  }

  lemma ReadChainDone(disk: Disk, b: Bpb, fat: seq<byte>, cluster: nat, size: nat)
    requires Usable(b) && |fat| == FAT_BUFFER && (size == 0 || !InChain(cluster))
    ensures ReadChain(disk, b, fat, cluster, size) == Some([])
  {
  }

  lemma FatPresent(s: Sys, drive: int, b: Bpb)
    requires ValidBpb(b) && FatReadable(DiskOf(s, drive), b)
    ensures drive in s.media
  {
  }

  lemma ChainDone(disk: Disk, b: Bpb, fat: seq<byte>, cluster: nat, data: seq<byte>)
    requires Usable(b) && |fat| == FAT_BUFFER
    requires data == [] || !InChain(cluster)
    ensures WriteChain(disk, b, fat, cluster, data) == disk
    ensures ClosedFat(b, fat, cluster, data) == fat
  {
  }

  lemma FindSlotPast(disk: Disk, b: Bpb)
    ensures FindSlot(disk, b, Slots(disk, b)) == None
  {
  }

  lemma ImageOf(b: Bpb, data: seq<byte>)
    ensures var n := Min(|data|, ClusterBytes(b));
            ClusterImage(b, data) == data[..n] + Zeros(ClusterBytes(b) - n)
  {
  }

  lemma LbaInRange(b: Bpb, cluster: nat)
    requires ValidBpb(b) && b.fatSize <= 12 && InChain(cluster)
    ensures ClusterLba(b, cluster) < LBA_LIMIT
  {
    MulAtMost(cluster - 2, 4085, b.sectorsPerCluster);
    MulAtMost(b.sectorsPerCluster, 128, 4085);
    MulAtMost(b.numFats, 2, b.fatSize);
  }

  lemma DirEntryBytes(name: seq<byte>, first: nat, size: nat)
    requires |name| == 11 && first < 0x1_0000 && size < 0x1_0000_0000
    ensures var e := DirEntry(name, first, size);
            && (forall k :: 0 <= k < 11 ==> e[k] == name[k])
            && e[11] == 0x20 && (forall k :: 12 <= k < 26 ==> e[k] == 0)
            && e[26] == first % 0x100 && e[27] == first / 0x100
            && e[28] == size % 0x100 && e[29] == size / 0x100 % 0x100
            && e[30] == size / 0x1_0000 % 0x100 && e[31] == size / 0x100_0000
  {
    var e0 := PutU16(name + [ATTR_ARCHIVE] + Zeros(20), 26, first);
    PutU32Bytes(e0, 28, size);
  }
}
