/** What a successful write leaves on the device, byte by byte: the directory entry, the links of the chain
    and the copies of the table. */
module Fat12Written {
  import opened Bytes
  import opened Ide
  import opened FatTable
  import opened Fat12Codec
  import opened Fat12Volume
  import opened Fat12Chains
  import opened Fat12Effects
  import opened Fat12RoundTrip
  import opened Fat12Layout

  // ---- The directory ----

  /** Byte `j` of slot `k`. */
  function EntryByte(disk: Disk, b: Bpb, k: nat, j: nat): byte
    requires SlotAddress(b, k) + 32 <= 512 * |disk| && j < 32
  {
    ByteAt(disk, SlotAddress(b, k) + j)
  }

  /** A slot that is free: never used, or deleted. */
  predicate Open(disk: Disk, b: Bpb, k: nat)
    requires SlotAddress(b, k) + 32 <= 512 * |disk|
  {
    EntryByte(disk, b, k, 0) == 0 || EntryByte(disk, b, k, 0) == 0xE5
  }

  /** Slot `k` is the entry of a file: name, archive bit, first cluster and size, and zeros. */
  ghost predicate EntryAt(d: Disk, b: Bpb, k: nat, name: seq<byte>, first: nat, size: nat)
    requires SlotAddress(b, k) + 32 <= 512 * |d| && |name| == 11
  {
    && (forall j :: 0 <= j < 11 ==> EntryByte(d, b, k, j) == name[j])
    && EntryByte(d, b, k, 11) == 0x20
    && (forall j :: 12 <= j < 26 ==> EntryByte(d, b, k, j) == 0)
    && FirstClusterOf(d, b, k) == first && SizeOf(d, b, k) == size
  }

  /** Slots of the directory other than `k` are as they were. */
  ghost predicate OtherSlots(disk: Disk, d: Disk, b: Bpb, k: nat)
    requires |d| == |disk|
  {
    forall l, j :: 0 <= l < Slots(disk, b) && l != k && 0 <= j < 32 && SlotAddress(b, l) + 32 <= 512 * |disk| ==>
      EntryByte(d, b, l, j) == EntryByte(disk, b, l, j)
  }

  /** The entry goes into the first free slot, and the rest of the directory stays. */
  lemma WrittenEntry(disk: Disk, b: Bpb, name: seq<byte>, data: seq<byte>, stack: seq<byte>) returns (k: nat)
    requires Vol(disk, b) && |stack| == FAT_BUFFER && |data| < 0x1_0000_0000
    requires WriteFile(disk, b, name, data, stack).1 == 0
    ensures k < 16 * ((b.rootEntries * 32 + 511) / 512) && SlotAddress(b, k) + 32 <= 512 * |disk| && Open(disk, b, k)
    ensures forall l :: 0 <= l < k ==> SlotAddress(b, l) + 32 <= 512 * |disk| && !Open(disk, b, l)
    ensures var d := WriteFile(disk, b, name, data, stack).0;
            var chain := AllocChain(disk, b, ClustersNeeded(b, |data|));
            chain != [] && EntryAt(d, b, k, FormatName(name), chain[0], |data|) && OtherSlots(disk, d, b, k)
  {
    hide Stores, AllocChain, ClustersNeeded, WriteFile, FindSlot, Vol, Open, EntryAt, OtherSlots, FormatName;
    VolParts(disk, b);
    WriteFileEffect(disk, b, name, data, stack);
    var d, chain := WriteFile(disk, b, name, data, stack).0, AllocChain(disk, b, ClustersNeeded(b, |data|));
    k := FindSlot(disk, b, 0).value;
    FindSlotMeaning(disk, b, 0);
    OpenSlots(disk, b, k);
    EntryStored(disk, d, b, chain, k, name, data);
  }

  /** Free slots, byte by byte. */
  lemma OpenSlots(disk: Disk, b: Bpb, k: nat)
    requires k < Slots(disk, b) && IsFree(Slot(disk, b, k)) && forall i :: 0 <= i < k ==> !IsFree(Slot(disk, b, i))
    ensures k < 16 * ((b.rootEntries * 32 + 511) / 512) && SlotAddress(b, k) + 32 <= 512 * |disk| && Open(disk, b, k)
    ensures forall l :: 0 <= l < k ==> SlotAddress(b, l) + 32 <= 512 * |disk| && !Open(disk, b, l)
  {
    hide Slot, Slots, SlotAddress, ByteAt;
    SlotByte(disk, b, k, 0);
    forall l | 0 <= l < k
      ensures SlotAddress(b, l) + 32 <= 512 * |disk| && !Open(disk, b, l)
    {
      SlotByte(disk, b, l, 0);
    }
  }

  lemma EntryStored(disk: Disk, d: Disk, b: Bpb, chain: seq<nat>, k: nat, name: seq<byte>, data: seq<byte>)
    requires Vol(disk, b) && |data| < 0x1_0000_0000 && Stores(disk, d, b, chain, k, name, data)
    ensures |d| == |disk| && chain != [] && SlotAddress(b, k) + 32 <= 512 * |d|
    ensures EntryAt(d, b, k, FormatName(name), chain[0], |data|) && OtherSlots(disk, d, b, k)
  {
    hide TableGrew, SameOtherClusters, Stored, Slot, SlotAddress, FormatName, DirEntry, Vol, EntryAt, OtherSlots;
    OthersKept(disk, d, b, k, DirEntry(FormatName(name), chain[0], |data|));
    EntryIs(d, b, k, FormatName(name), chain[0], |data|);
  }

  lemma EntryByteIs(disk: Disk, b: Bpb, k: nat, j: nat)
    requires k < Slots(disk, b) && j < 32
    ensures SlotAddress(b, k) + 32 <= 512 * |disk| && EntryByte(disk, b, k, j) == Slot(disk, b, k)[j]
  {
    SlotByte(disk, b, k, j);
    hide Slots, Slot, SlotAddress, ByteAt;
  }

  lemma EntryIs(d: Disk, b: Bpb, k: nat, name: seq<byte>, first: nat, size: nat)
    requires |name| == 11 && first < 0x1_0000 && size < 0x1_0000_0000
    requires k < Slots(d, b) && Slot(d, b, k) == DirEntry(name, first, size)
    ensures SlotAddress(b, k) + 32 <= 512 * |d| && EntryAt(d, b, k, name, first, size)
  {
    var e := DirEntry(name, first, size);
    EntryZeros(name, first, size);
    SlotFields(d, b, k);
    hide Slots, Slot, SlotAddress, EntryByte, DirEntry, FirstClusterOf, SizeOf, U16, U32;
    forall j | 0 <= j < 32
      ensures EntryByte(d, b, k, j) == e[j] && (j < 11 ==> e[j] == name[j])
    {
      EntryByteIs(d, b, k, j);
      assert j < 11 ==> e[j] == e[..11][j];
    }
  }

  lemma OthersKept(disk: Disk, d: Disk, b: Bpb, k: nat, e: seq<byte>)
    requires SlotPut(disk, d, b, k, e)
    ensures |d| == |disk| && Slots(d, b) == Slots(disk, b) && Slot(d, b, k) == e && OtherSlots(disk, d, b, k)
  {
    assert Slots(d, b) == Slots(disk, b) && Slot(d, b, k) == e;
    hide Slots, Slot, SlotAddress, EntryByte;
    forall l, j | 0 <= l < Slots(disk, b) && l != k && 0 <= j < 32 && SlotAddress(b, l) + 32 <= 512 * |disk|
      ensures EntryByte(d, b, l, j) == EntryByte(disk, b, l, j)
    {
      EntryByteIs(d, b, l, j);
      EntryByteIs(disk, b, l, j);
    }
  }

  lemma EntryZeros(name: seq<byte>, first: nat, size: nat)
    requires |name| == 11 && first < 0x1_0000 && size < 0x1_0000_0000
    ensures forall j :: 12 <= j < 26 ==> DirEntry(name, first, size)[j] == 0
  {
  }

  // ---- The table ----

  /** Each cluster of the chain leads to the next, the last one holds 0xFFF, and all other entries of the
      table are as they were. */
  ghost predicate ChainLinked(disk: Disk, d: Disk, b: Bpb, stack: seq<byte>, chain: seq<nat>)
    requires b.reserved + b.fatSize <= |disk| == |d| && |stack| == 6144
  {
    var was, now := Table(disk, b, stack), Table(d, b, stack);
    && (forall i :: 0 <= i < |chain| ==>
          Live(chain[i]) && EntryOf(now, chain[i]) == if i + 1 < |chain| then chain[i + 1] else 0xFFF)
    && (forall c: nat :: Live(c) && c + c / 2 + 1 < 512 * b.fatSize && c !in chain ==> EntryOf(now, c) == EntryOf(was, c))
  }

  /** Byte `j` is the same in both copies of the table, if there are two. */
  predicate CopiesAgree(d: Disk, b: Bpb, j: nat)
    requires b.reserved + 2 * b.fatSize <= |d| && j < 512 * b.fatSize
  {
    ByteAt(d, 512 * (b.reserved + b.fatSize) + j) == ByteAt(d, 512 * b.reserved + j)
  }

  /** The chain of the new file: the free clusters taken are linked in both copies of the table. There are as
      many as the size needs, one for an empty file. */
  lemma WrittenChain(disk: Disk, b: Bpb, name: seq<byte>, data: seq<byte>, stack: seq<byte>)
    requires Vol(disk, b) && |stack| == FAT_BUFFER && |data| < 0x1_0000_0000
    requires WriteFile(disk, b, name, data, stack).1 == 0
    ensures var d := WriteFile(disk, b, name, data, stack).0;
            var chain, size := AllocChain(disk, b, ClustersNeeded(b, |data|)), 512 * b.sectorsPerCluster;
            && b.reserved + b.fatSize <= |disk| == |d|
            && ChainLinked(disk, d, b, stack, chain)
            && (b.numFats == 2 ==> b.reserved + 2 * b.fatSize <= |d| && forall j :: 0 <= j < 512 * b.fatSize ==> CopiesAgree(d, b, j))
            && (data == [] ==> |chain| == 1)
            && (1 <= |data| <= 0x1000_0000 && |data| <= 65535 * size ==> (|chain| - 1) * size < |data| <= |chain| * size)
  {
    hide Stores, AllocChain, WriteFile, FindSlot, Vol, ChainLinked, CopiesAgree, FormatName, ClustersNeeded;
    VolParts(disk, b);
    WriteFileEffect(disk, b, name, data, stack);
    var d, chain := WriteFile(disk, b, name, data, stack).0, AllocChain(disk, b, ClustersNeeded(b, |data|));
    LinksStored(disk, d, b, chain, FindSlot(disk, b, 0).value, name, data, stack);
    hide ValidBpb;
    NeededFor(b, |data|);
  }

  lemma VolParts(disk: Disk, b: Bpb)
    requires Vol(disk, b)
    ensures Usable(b) && ValidBpb(b) && FatReadable(disk, b) && b.reserved + b.fatSize <= |disk|
    ensures b.numFats == 2 ==> b.reserved + 2 * b.fatSize <= |disk|
  {
    Regions(b);
  }

  lemma NeededFor(b: Bpb, n: nat)
    requires ValidBpb(b)
    ensures var k, size := ClustersNeeded(b, n), 512 * b.sectorsPerCluster;
            && (n == 0 ==> k == 1)
            && (1 <= n <= 0x1000_0000 && n <= 65535 * size ==> (k - 1) * size < n <= k * size)
  {
    if n == 0 {
      NoneNeeded(b);
    } else if n <= 0x1000_0000 && n <= 65535 * ClusterBytes(b) {
      hide ClustersNeeded, CeilClusters;
      CountBounds(b, n);
      CeilBounds(b, n);
      var q := CeilClusters(b, n);
      FewClusters(q, ClusterBytes(b), n);
    }
  }

  lemma FewClusters(q: int, size: nat, n: nat)
    requires (q - 1) * size < n <= 65535 * size
    ensures q <= 65535
  {
    if q > 65535 {
      MulAtMost(65535, q - 1, size);
      assert false;
    }
  }

  lemma NoneNeeded(b: Bpb)
    requires ValidBpb(b)
    ensures ClustersNeeded(b, 0) == 1
  {
    var size := ClusterBytes(b);
    assert 512 <= size <= 0x1_0000;
    InFirst(size - 1, size);
  }

  lemma LinksStored(disk: Disk, d: Disk, b: Bpb, chain: seq<nat>, k: nat, name: seq<byte>, data: seq<byte>, stack: seq<byte>)
    requires Vol(disk, b) && |data| < 0x1_0000_0000 && Stores(disk, d, b, chain, k, name, data) && |stack| == 6144
    ensures b.reserved + b.fatSize <= |disk| == |d| && ChainLinked(disk, d, b, stack, chain)
    ensures b.numFats == 2 ==> b.reserved + 2 * b.fatSize <= |d| && forall j :: 0 <= j < 512 * b.fatSize ==> CopiesAgree(d, b, j)
  {
    hide SameOtherClusters, Stored, SlotPut, DirEntry, FormatName, FatOf, Entries, Table, EntryOf, CopiesAgree, DataLba, MaxClusters;
    VolParts(disk, b);
    forall i | 0 <= i < |chain|
      ensures Live(chain[i]) && EntryOf(Table(d, b, stack), chain[i]) == if i + 1 < |chain| then chain[i + 1] else 0xFFF
    {
      LimitInTable(b, chain[i]);
      EntryStands(d, b, stack, chain[i]);
      assert Entries(FatOf(d, b))[chain[i]] == Successor(chain, EOC_MARK, i);
    }
    forall c: nat | Live(c) && c + c / 2 + 1 < 512 * b.fatSize && c !in chain
      ensures EntryOf(Table(d, b, stack), c) == EntryOf(Table(disk, b, stack), c)
    {
      EntryStands(d, b, stack, c);
      EntryStands(disk, b, stack, c);
    }
    if b.numFats == 2 {
      forall j | 0 <= j < 512 * b.fatSize
        ensures CopiesAgree(d, b, j)
      {
        CopyByte(d, b, j);
      }
    }
  }

  lemma LimitInTable(b: Bpb, c: nat)
    requires Usable(b) && 2 <= c < MaxClusters(b)
    ensures Live(c) && c + c / 2 + 1 < 512 * b.fatSize
  {
  }

  /** An entry of the table proper, read from the first copy. */
  lemma EntryStands(d: Disk, b: Bpb, stack: seq<byte>, c: nat)
    requires Usable(b) && FatReadable(d, b) && |stack| == 6144 && Live(c) && c + c / 2 + 1 < 512 * b.fatSize
    ensures c < |Entries(FatOf(d, b))| && Entries(FatOf(d, b))[c] == EntryOf(Table(d, b, stack), c)
  {
    TableIsBuffer(d, b, stack);
    EntryIsRead(Table(d, b, stack), c);
    InCapacity(b.fatSize, c);
    EntryInBuffer(FatOf(d, b), stack[512 * b.fatSize..], c);
    hide FatOf, Table, EntryOf, ReadEntry, Capacity;
  }

  lemma InCapacity(size: nat, c: nat)
    requires c + c / 2 + 1 < 512 * size
    ensures c < Capacity(512 * size)
  {
  }

  lemma CopyByte(d: Disk, b: Bpb, j: nat)
    requires Vol(d, b) && AllCopies(d, b, FatOf(d, b)) && b.numFats == 2 && j < 512 * b.fatSize
    ensures b.reserved + 2 * b.fatSize <= |d| && CopiesAgree(d, b, j)
  {
    VolParts(d, b);
    SectorByte(d, b.reserved, b.fatSize, j);
    SectorByte(d, b.reserved + b.fatSize, b.fatSize, j);
    hide ReadSectors, ByteAt;
  }

  // ---- The table the chain writer leaves ----

  /** The cluster that takes the last byte of `n`, if the chain gets that far. */
  function LastCluster(b: Bpb, table: seq<byte>, first: nat, n: nat): nat
    requires |table| == 6144 && n > 0 && b.sectorsPerCluster > 0
  {
    Link(table, first, Turn(n - 1, 512 * b.sectorsPerCluster))
  }

  lemma {:induction false} ClosedAt(b: Bpb, table: seq<byte>, c: nat, data: seq<byte>)
    requires Usable(b) && |table| == 6144
    ensures data == [] ==> ClosedFat(b, table, c, data) == table
    ensures data != [] ==>
              var e := LastCluster(b, table, c, |data|);
              ClosedFat(b, table, c, data) == if Live(e) then WriteEntry(table, e, 0xFFF) else table
    decreases |data|
  {
    hide EntryOf, ReadEntry, WriteEntry, Link;
    if data != [] {
      var n, cs := |data|, ClusterBytes(b);
      InFirst(n - 1, cs);
      if !Live(c) {
        LinkDead(table, c, (n - 1) / cs);
      } else if n <= cs {
        assert Link(table, c, 0) == c by { LinkStart(table, c); }
      } else {
        EntryIsRead(table, c);
        ClosedAt(b, table, ReadEntry(table, c), data[cs..]);
        LinkNext(table, c, (n - 1) / cs - 1);
        assert n - 1 - cs == n - cs - 1;
      }
    }
  }

  lemma LinkStart(table: seq<byte>, c: nat)
    requires |table| == 6144
    ensures Link(table, c, 0) == c
  {
  }

  /** Sector `s` of copy `c` after the table writer. */
  lemma {:induction false} FatsThere(disk: Disk, copies: nat, size: nat, fat: seq<byte>, start: nat, c: nat, s: nat)
    requires 512 * size <= |fat| && c < copies && s < size && start + copies * size <= |disk|
    ensures start + c * size + s < |disk|
    ensures WriteFats(disk, copies, size, fat, start)[start + c * size + s] == SectorOf(fat, s)
    decreases copies
  {
    hide SectorOf;
    CopyPlace(c, copies, size, s);
    var at, last := c * size, (copies - 1) * size;
    var rest := WriteFats(disk, copies - 1, size, fat, start);
    assert WriteFats(disk, copies, size, fat, start) == WriteSectors(rest, start + last, size, fat);
    if c < copies - 1 {
      FatsThere(disk, copies - 1, size, fat, start, c, s);
    }
  }

  lemma CopyPlace(c: nat, copies: nat, size: nat, s: nat)
    requires c < copies && s < size
    ensures c * size + s < copies * size && (copies - 1) * size + size == copies * size
    ensures c < copies - 1 ==> c * size + s < (copies - 1) * size
  {
    MulAtMost(c + 1, copies, size);
    assert (c + 1) * size == c * size + size && copies * size == (copies - 1) * size + size;
    if c < copies - 1 { MulAtMost(c + 1, copies - 1, size); }
  }

  /** Byte `j` of copy `c` of the table. */
  function CopyOf(d: Disk, b: Bpb, c: nat, j: nat): byte
    requires b.reserved + c * b.fatSize + j / 512 < |d|
  {
    d[b.reserved + c * b.fatSize + j / 512][j % 512]
  }

  /** All copies of the table are written: those of the table read, with the entry of the cluster that took the
      last byte set to 0xFFF. */
  lemma TablesWritten(disk: Disk, b: Bpb, first: nat, data: seq<byte>, stack: seq<byte>, c: nat, j: nat)
    requires Usable(b) && |stack| == FAT_BUFFER && b.reserved + b.numFats * b.fatSize <= |disk|
    requires c < b.numFats && j < 512 * b.fatSize
    ensures b.reserved + b.fatSize <= |disk| && b.reserved + c * b.fatSize + j / 512 < |disk|
    ensures var table := Table(disk, b, stack);
            CopyOf(WriteClusters(disk, b, first, data, stack), b, c, j)
            == if data != [] && Live(LastCluster(b, table, first, |data|))
               then WriteEntry(table, LastCluster(b, table, first, |data|), 0xFFF)[j]
               else table[j]
  {
    FirstCopyFits(disk, b);
    TableIsBuffer(disk, b, stack);
    var table := Table(disk, b, stack);
    ClosedAt(b, table, first, data);
    hide Table, WriteFats, WriteChain, ClosedFat, LastCluster, WriteEntry, FatBuffer;
    var fat := ClosedFat(b, table, first, data);
    var s := j / 512;
    FatsThere(WriteChain(disk, b, table, first, data), b.numFats, b.fatSize, fat, b.reserved, c, s);
    assert SectorOf(fat, s)[j % 512] == fat[j];
  }

  lemma FirstCopyFits(disk: Disk, b: Bpb)
    requires Usable(b) && b.reserved + b.numFats * b.fatSize <= |disk|
    ensures b.reserved + b.fatSize <= |disk| && FatReadable(disk, b)
  {
    MulAtMost(1, b.numFats, b.fatSize);
  }

  /** What setting an entry does to the entries of a table. */
  lemma EntrySet(table: seq<byte>, e: nat, c: nat)
    requires |table| == 6144 && Live(e) && Live(c)
    ensures EntryOf(WriteEntry(table, e, 0xFFF), c) == if c == e then 0xFFF else EntryOf(table, c)
  {
    EntryIsRead(table, c);
    EntryIsRead(WriteEntry(table, e, 0xFFF), c);
    Fat12Codec.WriteThenRead(table, e, 0xFFF, c);
    hide EntryOf, ReadEntry, WriteEntry;
  }
}
