/** What a file written can be relied upon for: reading it gives it back, and every other file is
    still there. */
module Fat12RoundTrip {
  import opened Bytes
  import opened Options
  import opened Ide
  import opened FatTable
  import opened Fat12Codec
  import opened Fat12Volume
  import opened Fat12Chains
  import opened Fat12Effects

  /** The table has the chain linked into it, and all its copies agree. */
  ghost predicate TableGrew(disk: Disk, d: Disk, b: Bpb, chain: seq<nat>)
    requires Vol(disk, b) && |d| == |disk|
  {
    && AllCopies(d, b, FatOf(d, b))
    && Linked(Entries(FatOf(disk, b)), Entries(FatOf(d, b)), chain, EOC_MARK)
  }

  /** A chain of clusters that were free in the table of `disk`. */
  ghost predicate FreeChain(disk: Disk, b: Bpb, chain: seq<nat>)
    requires Vol(disk, b)
  {
    && chain != [] && Increasing(chain) && Clusters(chain)
    && forall i :: 0 <= i < |chain| ==> chain[i] < MaxClusters(b) && ReadEntry(FatOf(disk, b), chain[i]) == 0
  }

  /** Nothing in the data area changed outside the clusters of `chain`. */
  ghost predicate SameOtherClusters(disk: Disk, d: Disk, b: Bpb, chain: seq<nat>)
    requires Clusters(chain)
  {
    && |d| == |disk|
    && forall j :: DataLba(b) <= j < |disk| && Avoids(b, chain, j) ==> d[j] == disk[j]
  }

  /** The only differences: one chain in the table, one directory slot, the chain's clusters. */
  ghost predicate Stores(disk: Disk, d: Disk, b: Bpb, chain: seq<nat>, k: nat, name: seq<byte>, data: seq<byte>)
    requires Vol(disk, b) && |data| < 0x1_0000_0000
  {
    && |d| == |disk|
    && FreeChain(disk, b, chain) && TableGrew(disk, d, b, chain)
    && (forall j :: 0 <= j < b.reserved ==> d[j] == disk[j])
    && SameOtherClusters(disk, d, b, chain)
    && Stored(d, b, chain, data)
    && SlotPut(disk, d, b, k, DirEntry(FormatName(name), chain[0], |data|))
  }

  /** The only difference: one chain in the table, which no directory entry names. */
  ghost predicate Orphans(disk: Disk, d: Disk, b: Bpb, chain: seq<nat>)
    requires Vol(disk, b)
  {
    && |d| == |disk|
    && FreeChain(disk, b, chain) && TableGrew(disk, d, b, chain)
    && SameOutsideFats(disk, d, b)
  }

  // ---- The steps of a successful write ----

  lemma AboveData(b: Bpb, chain: seq<nat>, j: nat)
    requires Clusters(chain) && j < DataLba(b)
    ensures Avoids(b, chain, j)
  {
  }

  lemma {:induction false} StoredStill(x: Disk, y: Disk, b: Bpb, ch: seq<nat>, data: seq<byte>)
    requires Clusters(ch) && Stored(x, b, ch, data) && |x| == |y|
    requires forall j :: DataLba(b) <= j < |x| ==> y[j] == x[j]
    ensures Stored(y, b, ch, data)
    decreases |ch|
  {
    if ch != [] && data != [] {
      HoldsSame(x, y, b, ch[0], ClusterImage(b, data));
      hide Holds, Rest, ClusterImage, DataLba;
      StoredStill(x, y, b, ch[1..], Rest(b, data));
    }
  }

  lemma HoldsSame(x: Disk, y: Disk, b: Bpb, c: nat, image: seq<byte>)
    requires 2 <= c && |image| == ClusterBytes(b) && Holds(x, b, c, image) && |x| == |y|
    requires forall j :: DataLba(b) <= j < |x| ==> y[j] == x[j]
    ensures Holds(y, b, c, image)
  {
    hide ClusterLba, DataLba, SectorOf;
  }

  /** fat12_write_clusters along a freshly linked chain: the table stays, the clusters are filled. */
  lemma ClustersWritten(disk: Disk, b: Bpb, chain: seq<nat>, data: seq<byte>, stack: seq<byte>)
    requires Vol(disk, b) && |stack| == FAT_BUFFER
    requires chain != [] && Increasing(chain) && Clusters(chain)
    requires forall i :: 0 <= i < |chain| ==> chain[i] < MaxClusters(b)
    requires IsChain(Entries(FatOf(disk, b)), chain, EOC_MARK)
    requires data == [] || Used(b, chain, |data|)
    ensures var d := WriteClusters(disk, b, chain[0], data, stack);
            && |d| == |disk| && FatOf(d, b) == FatOf(disk, b) && AllCopies(d, b, FatOf(d, b))
            && OnlyFatsAndClusters(disk, d, b, chain)
            && Stored(d, b, chain, data)
  {
    var fat := FatBuffer(disk, b, stack);
    var junk := stack[512 * b.fatSize..];
    assert fat[..512 * b.fatSize] == FatOf(disk, b);
    hide WriteChain, ClosedFat, WriteFats, Follows, FatOf, Entries, IsChain, Used, Stored, DataLba;
    AllocFollows(FatOf(disk, b), junk, chain);
    WriteChainStores(disk, b, fat, chain, data);
    ClosedIsSame(b, fat, chain, data);
    var d3 := WriteChain(disk, b, fat, chain[0], data);
    var d := WriteFats(d3, b.numFats, b.fatSize, fat, b.reserved);
    assert d == WriteClusters(disk, b, chain[0], data, stack);
    WriteFatsEffect(d3, b, fat);
    Regions(b);
    StoredStill(d3, d, b, chain, data);
  }

  ghost predicate OnlyFatsAndClusters(disk: Disk, d: Disk, b: Bpb, chain: seq<nat>)
    requires Clusters(chain)
  {
    && |d| == |disk|
    && forall j :: 0 <= j < |disk| && !(b.reserved <= j < RootLba(b)) && Avoids(b, chain, j) ==> d[j] == disk[j]
  }

  /** How many clusters are asked for is how many are used. */
  lemma AllUsed(b: Bpb, chain: seq<nat>, size: nat)
    requires ValidBpb(b) && size < 0x1_0000_0000 && |chain| == ClustersNeeded(b, size)
    ensures size == 0 || Used(b, chain, size)
  {
    if size > 0 { NeededFits(b, chain, size); }
  }

  /** After the allocation: one more chain, the same directory. */
  lemma AllocOrphans(disk: Disk, b: Bpb, count: nat)
    requires Vol(disk, b) && 1 <= count < 0x1_0000 && AllocChain(disk, b, count) != []
    ensures var d := AllocClusters(disk, b, count);
            && Orphans(disk, d, b, AllocChain(disk, b, count))
            && SlotsEq(disk, d, b) && FindSlot(d, b, 0) == FindSlot(disk, b, 0)
  {
    AllocEffect(disk, b, count);
    RootAfterAlloc(disk, AllocClusters(disk, b, count), b);
  }

  /** The directory entry and the data, on a disk whose table already has the chain. */
  lemma EntryAndData(disk: Disk, d1: Disk, b: Bpb, chain: seq<nat>, k: nat, name: seq<byte>, data: seq<byte>, stack: seq<byte>)
    requires Vol(disk, b) && |stack| == FAT_BUFFER && |data| < 0x1_0000_0000
    requires Orphans(disk, d1, b, chain) && SlotsEq(disk, d1, b) && k < Slots(d1, b)
    requires data == [] || Used(b, chain, |data|)
    ensures chain[0] < 0x1_0000
    ensures var d2 := PutSlot(d1, b, k, DirEntry(FormatName(name), chain[0], |data|));
            Stores(disk, WriteClusters(d2, b, chain[0], data, stack), b, chain, k, name, data)
  {
    assert RootLba(b) + k / 16 < |d1|;
    hide Slots, Slot, DirEntry, FormatName, FatOf, Entries, Used, Stored, Increasing, MaxClusters, DataLba,
         PutSlot, WriteClusters, RootLba, ReadEntry;
    var e := DirEntry(FormatName(name), chain[0], |data|);
    var d2 := PutSlot(d1, b, k, e);
    PutSlotEffect(d1, b, k, e);
    FatOutsideRoot(d1, d2, b);
    LinkedParts(FatOf(disk, b), FatOf(d1, b), chain);
    ClustersWritten(d2, b, chain, data, stack);
    var d := WriteClusters(d2, b, chain[0], data, stack);
    RootAfterClusters(d2, d, b, chain);
    SlotsCompose(disk, d1, d2, d, b, k, e);
    RestAfterWrite(disk, d1, d2, d, b, chain);
    assert TableGrew(disk, d, b, chain);
  }

  /** fat12_write_file, described by its outcome. */
  lemma WriteFileEffect(disk: Disk, b: Bpb, name: seq<byte>, data: seq<byte>, stack: seq<byte>)
    requires Vol(disk, b) && |stack| == FAT_BUFFER && |data| < 0x1_0000_0000
    ensures var (d, r) := WriteFile(disk, b, name, data, stack);
            var chain := AllocChain(disk, b, ClustersNeeded(b, |data|));
            && r == (if chain == [] then -2 else if FindSlot(disk, b, 0).None? then -3 else 0)
            && (r == -2 ==> d == disk)
            && (r == -3 ==> Orphans(disk, d, b, chain))
            && (r == 0 ==> Stores(disk, d, b, chain, FindSlot(disk, b, 0).value, name, data))
  {
    hide Stores, Orphans, SlotsEq, Used, ClustersNeeded, FindSlot, AllocChain, AllocClusters, PutSlot, DirEntry,
         WriteClusters, Slots, Vol, FormatName;
    VolUsable(disk, b);
    var count := ClustersNeeded(b, |data|);
    var chain := AllocChain(disk, b, count);
    if chain != [] {
      SlotCount(disk, AllocClusters(disk, b, count), b);
      AllocOrphans(disk, b, count);
      var d1 := AllocClusters(disk, b, count);
      var slot := FindSlot(disk, b, 0);
      AllUsed(b, chain, |data|);
      if slot.Some? {
        EntryAndData(disk, d1, b, chain, slot.value, name, data, stack);
      }
    }
  }

  lemma VolUsable(disk: Disk, b: Bpb)
    requires Vol(disk, b)
    ensures Usable(b) && FatReadable(disk, b)
  {
  }

  lemma LinkedParts(fat: seq<byte>, fat': seq<byte>, chain: seq<nat>)
    requires Linked(Entries(fat), Entries(fat'), chain, EOC_MARK)
    ensures IsChain(Entries(fat'), chain, EOC_MARK)
  {
  }

  lemma SlotCount(disk: Disk, d: Disk, b: Bpb)
    requires |d| == |disk|
    ensures Slots(d, b) == Slots(disk, b)
  {
  }

  lemma FatOutsideRoot(disk: Disk, d: Disk, b: Bpb)
    requires Vol(disk, b) && SameOutsideRoot(disk, d, b)
    ensures FatOf(d, b) == FatOf(disk, b)
  {
    Regions(b);
    hide RootLba, DataLba;
    FatUnchanged(disk, d, b);
  }

  lemma SlotsCompose(disk: Disk, d1: Disk, d2: Disk, d: Disk, b: Bpb, k: nat, e: seq<byte>)
    requires SlotsEq(disk, d1, b) && SlotPut(d1, d2, b, k, e) && SlotsEq(d2, d, b)
    ensures SlotPut(disk, d, b, k, e)
  {
    SlotCount(disk, d1, b);
    SlotCount(d1, d2, b);
    hide Slots, Slot;
    forall i | 0 <= i < Slots(disk, b)
      ensures Slot(d, b, i) == if i == k then e else Slot(disk, b, i)
    {
    }
  }

  lemma RestAfterWrite(disk: Disk, d1: Disk, d2: Disk, d: Disk, b: Bpb, chain: seq<nat>)
    requires Vol(disk, b) && Clusters(chain)
    requires SameOutsideFats(disk, d1, b) && SameOutsideRoot(d1, d2, b) && OnlyFatsAndClusters(d2, d, b, chain)
    ensures SameOtherClusters(disk, d, b, chain)
    ensures forall j :: 0 <= j < b.reserved ==> d[j] == disk[j]
  {
    Regions(b);
    forall j | 0 <= j < b.reserved
      ensures d[j] == disk[j]
    {
      AboveData(b, chain, j);
    }
    hide RootLba, DataLba, Avoids;
    forall j | DataLba(b) <= j < |disk| && Avoids(b, chain, j)
      ensures d[j] == disk[j]
    {
    }
  }

  lemma RootAfterAlloc(disk: Disk, d: Disk, b: Bpb)
    requires SameOutsideFats(disk, d, b)
    ensures SlotsEq(disk, d, b)
    ensures FindSlot(d, b, 0) == FindSlot(disk, b, 0)
  {
    SlotsSame(disk, d, b);
    FindSlotSame(disk, d, b, 0);
  }

  lemma {:induction false} FindSlotSame(disk: Disk, d: Disk, b: Bpb, k: nat)
    requires SlotsEq(disk, d, b)
    ensures FindSlot(d, b, k) == FindSlot(disk, b, k)
    decreases Slots(disk, b) - k
  {
    if k < Slots(disk, b) { FindSlotSame(disk, d, b, k + 1); }
  }

  lemma RootAfterClusters(disk: Disk, d: Disk, b: Bpb, chain: seq<nat>)
    requires Clusters(chain) && OnlyFatsAndClusters(disk, d, b, chain)
    ensures SlotsEq(disk, d, b)
  {
    forall j | RootLba(b) <= j < DataLba(b) && j < |disk|
      ensures d[j] == disk[j]
    {
      AboveData(b, chain, j);
    }
    SlotsSame(disk, d, b);
  }

  // ---- Write, then read ----

  /** Everything the caller can check beforehand: kmalloc accepts the size, the name does not start
      with the deletion mark, the cluster count does not overflow 16 bits, and the last cluster the
      file is given lies on the device. */
  predicate Readable(disk: Disk, b: Bpb, name: seq<byte>, size: nat)
    requires Vol(disk, b)
  {
    && 1 <= size <= 0x1000_0000
    && (name == [] || name[0] != 0xE5)
    && CeilClusters(b, size) < 0x1_0000
    && var chain := AllocChain(disk, b, ClustersNeeded(b, size));
       chain != [] && OnDevice(disk, b, chain[|chain| - 1])
  }

  /** Write-then-read.  If the write reports success and no visible file had that 8.3 name, a read
      returns exactly the bytes and the size written if and only if the file is Readable and the
      heap has room for it. */
  lemma WriteThenRead(disk: Disk, b: Bpb, name: seq<byte>, data: seq<byte>, heapHasRoom: bool,
                      stackW: seq<byte>, stackR: seq<byte>)
    requires Vol(disk, b) && |stackW| == |stackR| == FAT_BUFFER && |data| < 0x1_0000_0000
    requires 0 !in name && FindFile(disk, b, FormatName(name), 0) == None
    requires WriteFile(disk, b, name, data, stackW).1 == 0
    ensures var d := WriteFile(disk, b, name, data, stackW).0;
            ReadFile(d, b, name, heapHasRoom, stackR) == Some((data, |data|))
            <==> Readable(disk, b, name, |data|) && heapHasRoom
  {
    hide WriteFile, ReadSlot, FindFile, FindSlot, AllocChain, ClustersNeeded, CeilClusters, Slots, FormatName, DirEntry;
    var d := WriteFile(disk, b, name, data, stackW).0;
    var chain := AllocChain(disk, b, ClustersNeeded(b, |data|));
    WriteFileEffect(disk, b, name, data, stackW);
    var k := FindSlot(disk, b, 0).value;
    NewEntryFound(disk, d, b, k, name, chain[0], |data|);
    ReadNewFile(disk, d, b, chain, k, name, data, heapHasRoom, stackR);
  }

  /** The scan finds the new entry, unless its name marks it as deleted. */
  lemma NewEntryFound(disk: Disk, d: Disk, b: Bpb, k: nat, name: seq<byte>, first: nat, size: nat)
    requires Vol(disk, b) && 0 !in name && |d| == |disk| && first < 0x1_0000 && size < 0x1_0000_0000
    requires FindSlot(disk, b, 0) == Some(k)
    requires FindFile(disk, b, FormatName(name), 0) == None
    requires SlotPut(disk, d, b, k, DirEntry(FormatName(name), first, size))
    ensures FindFile(d, b, FormatName(name), 0) == if name != [] && name[0] == 0xE5 then None else Some(k)
  {
    var fname := FormatName(name);
    FirstNameByte(name);
    if fname[0] == 0xE5 {
      NeverMatches(d, b, fname, 0);
    } else {
      FindSlotMeaning(disk, b, 0);
      DirEntryMatches(fname, first, size, fname);
      forall i | 0 <= i < k
        ensures Slot(d, b, i)[0] != 0x00 && !Matches(Slot(d, b, i), fname)
      {
        NoMatchBefore(disk, b, fname, k, i);
      }
      FindFileMeaning(d, b, fname, 0, k);
    }
  }

  lemma NoMatchBefore(disk: Disk, b: Bpb, fname: seq<byte>, k: nat, i: nat)
    requires i < k <= Slots(disk, b)
    requires forall j :: 0 <= j < k ==> !IsFree(Slot(disk, b, j))
    requires FindFile(disk, b, fname, 0) == None
    ensures Slot(disk, b, i)[0] != 0x00 && !Matches(Slot(disk, b, i), fname)
  {
    FirstMatch(disk, b, fname, 0, i);
  }

  /** Where no slot is free, a lookup that fails has seen no match. */
  lemma {:induction false} FirstMatch(disk: Disk, b: Bpb, fname: seq<byte>, j: nat, i: nat)
    requires j <= i < Slots(disk, b)
    requires forall m :: j <= m <= i ==> !IsFree(Slot(disk, b, m))
    requires FindFile(disk, b, fname, j) == None
    ensures !Matches(Slot(disk, b, i), fname)
    decreases i - j
  {
    if j < i { FirstMatch(disk, b, fname, j + 1, i); }
  }

  /** Reading a stored chain: complete if it is long enough and on the device, else incomplete. */
  lemma ReadNewChain(d: Disk, b: Bpb, fat: seq<byte>, chain: seq<nat>, data: seq<byte>)
    requires Usable(b) && |fat| == FAT_BUFFER && Follows(fat, chain)
    requires Clusters(chain) && Increasing(chain) && Stored(d, b, chain, data) && Used(b, chain, |data|)
    ensures var r := ReadChain(d, b, fat, chain[0], |data|);
            if Enough(b, chain, |data|) && OnDevice(d, b, chain[|chain| - 1]) then r == Some(data)
            else r.Some? ==> |r.value| < |data|
  {
    LastDecides(d, b, chain);
    if !Enough(b, chain, |data|) {
      ReadShort(d, b, fat, chain, |data|);
    } else if OnDevice(d, b, chain[|chain| - 1]) {
      ReadStored(d, b, fat, chain, data);
    } else {
      ReadPastEnd(d, b, fat, chain, |data|);
    }
  }

  /** Reading a slot, given the entry it holds. */
  lemma ReadSlotWith(d: Disk, b: Bpb, k: nat, name: seq<byte>, first: nat, size: nat, heapHasRoom: bool, stack: seq<byte>)
    requires Vol(d, b) && |stack| == FAT_BUFFER && k < Slots(d, b)
    requires |name| == 11 && first < 0x1_0000 && size < 0x1_0000_0000
    requires Slot(d, b, k) == DirEntry(name, first, size)
    ensures ReadSlot(d, b, k, heapHasRoom, stack) ==
            if !HeapGrants(size, heapHasRoom) then None
            else
              var r := ReadChain(d, b, FatBuffer(d, b, stack), first, size);
              if r == None then None else Some((r.value + Zeros(size - |r.value|), |r.value|))
  {
  }

  lemma ReadNewFile(disk: Disk, d: Disk, b: Bpb, chain: seq<nat>, k: nat, name: seq<byte>, data: seq<byte>,
                    heapHasRoom: bool, stack: seq<byte>)
    requires Vol(disk, b) && |stack| == FAT_BUFFER && |data| < 0x1_0000_0000
    requires Stores(disk, d, b, chain, k, name, data) && |chain| == ClustersNeeded(b, |data|)
    ensures k < Slots(d, b)
    ensures ReadSlot(d, b, k, heapHasRoom, stack) == Some((data, |data|)) <==>
            1 <= |data| <= 0x1000_0000 && heapHasRoom && CeilClusters(b, |data|) < 0x1_0000 && OnDevice(disk, b, chain[|chain| - 1])
  {
    var fat := FatBuffer(d, b, stack);
    SlotCount(disk, d, b);
    ReadSlotWith(d, b, k, FormatName(name), chain[0], |data|, heapHasRoom, stack);
    DeviceSize(disk, d, b, chain[|chain| - 1]);
    if |data| >= 1 {
      LinkedParts(FatOf(disk, b), FatOf(d, b), chain);
      AllocFollows(FatOf(d, b), stack[512 * b.fatSize..], chain);
      NeededFits(b, chain, |data|);
      ReadNewChain(d, b, fat, chain, data);
      assert data + Zeros(0) == data;
    }
  }

  lemma DeviceSize(disk: Disk, d: Disk, b: Bpb, c: nat)
    requires |d| == |disk| && 2 <= c
    ensures OnDevice(d, b, c) == OnDevice(disk, b, c)
  {
  }

  // ---- Every other file ----

  /** Reading `size` bytes from `cluster` on visits only clusters marked as in use in the table. */
  predicate VisitsInUse(b: Bpb, fat: seq<byte>, cluster: nat, size: nat)
    requires ValidBpb(b)
    decreases size
  {
    size == 0 || !InChain(cluster) ||
    (cluster < Capacity(|fat|) && ReadEntry(fat, cluster) != 0
     && VisitsInUse(b, fat, ReadEntry(fat, cluster), size - Min(size, ClusterBytes(b))))
  }

  /** The file in slot `m` lives in clusters that are marked as in use. */
  predicate SlotInUse(disk: Disk, b: Bpb, m: nat)
    requires Usable(b) && FatReadable(disk, b) && m < Slots(disk, b)
  {
    VisitsInUse(b, FatOf(disk, b), U16(Slot(disk, b, m), 26), U32(Slot(disk, b, m), 28))
  }

  /** Linking free clusters and filling them does not show along clusters in use. */
  lemma {:induction false} ReadChainSame(disk: Disk, d: Disk, b: Bpb, chain: seq<nat>,
                                         fat: seq<byte>, fat': seq<byte>, junk: seq<byte>, cluster: nat, size: nat)
    requires Usable(b) && |d| == |disk| && |fat| == |fat'| && |fat + junk| == FAT_BUFFER && Clusters(chain)
    requires forall i :: 0 <= i < |chain| ==> chain[i] < Capacity(|fat|) && ReadEntry(fat, chain[i]) == 0
    requires SameOutside(Entries(fat), Entries(fat'), chain)
    requires SameOtherClusters(disk, d, b, chain)
    requires VisitsInUse(b, fat, cluster, size)
    ensures ReadChain(d, b, fat' + junk, cluster, size) == ReadChain(disk, b, fat + junk, cluster, size)
    decreases size
  {
    if size != 0 && InChain(cluster) {
      assert cluster !in chain;
      assert Entries(fat')[cluster] == Entries(fat)[cluster];
      EntryInBuffer(fat, junk, cluster);
      EntryInBuffer(fat', junk, cluster);
      var next, left := ReadEntry(fat, cluster), size - Min(size, ClusterBytes(b));
      ReadChainSame(disk, d, b, chain, fat, fat', junk, next, left);
      if OnDevice(disk, b, cluster) {
        OtherClusterSame(disk, d, b, chain, cluster);
      }
      hide ClusterLba, ReadEntry, Entries, SameOtherClusters, VisitsInUse, ReadSectors;
      assert ReadChain(d, b, fat' + junk, next, left) == ReadChain(disk, b, fat + junk, next, left);
    }
  }

  lemma OtherClusterSame(disk: Disk, d: Disk, b: Bpb, chain: seq<nat>, c: nat)
    requires Clusters(chain) && 2 <= c && c !in chain && SameOtherClusters(disk, d, b, chain)
    requires OnDevice(disk, b, c)
    ensures ReadSectors(d, ClusterLba(b, c), b.sectorsPerCluster) == ReadSectors(disk, ClusterLba(b, c), b.sectorsPerCluster)
  {
    forall j | ClusterLba(b, c) <= j < ClusterLba(b, c) + b.sectorsPerCluster
      ensures d[j] == disk[j]
    {
      OtherCluster(b, c, chain, j);
    }
    ReadSame(disk, d, ClusterLba(b, c), b.sectorsPerCluster);
  }

  /** Whatever fat12_write_file returns, a file with a different 8.3 name that could be found and
      that lives in clusters marked as in use reads back exactly as before. */
  lemma WriteKeepsOthers(disk: Disk, b: Bpb, name: seq<byte>, data: seq<byte>, stackW: seq<byte>,
                         other: seq<byte>, m: nat, heapHasRoom: bool, stackR: seq<byte>)
    requires Vol(disk, b) && |stackW| == |stackR| == FAT_BUFFER && |data| < 0x1_0000_0000 && 0 !in name
    requires FormatName(other) != FormatName(name)
    requires FindFile(disk, b, FormatName(other), 0) == Some(m) && SlotInUse(disk, b, m)
    ensures var d := WriteFile(disk, b, name, data, stackW).0;
            && FindFile(d, b, FormatName(other), 0) == Some(m)
            && SlotInUse(d, b, m)
            && ReadFile(d, b, other, heapHasRoom, stackR) == ReadFile(disk, b, other, heapHasRoom, stackR)
  {
    hide WriteFile, ReadSlot, FindFile, FindSlot, AllocChain, ClustersNeeded, FormatName, DirEntry, SlotInUse;
    var (d, r) := WriteFile(disk, b, name, data, stackW);
    var chain := AllocChain(disk, b, ClustersNeeded(b, |data|));
    WriteFileEffect(disk, b, name, data, stackW);
    if r == 0 {
      OtherStillFound(disk, d, b, name, chain[0], |data|, other, m);
      OtherSlotReads(disk, d, b, chain, m, heapHasRoom, stackR);
    } else if r == -3 {
      RootAfterAlloc(disk, d, b);
      FindFileSame(disk, d, b, FormatName(other), 0);
      OtherSlotReads(disk, d, b, chain, m, heapHasRoom, stackR);
    }
  }

  lemma {:induction false} FindFileSame(disk: Disk, d: Disk, b: Bpb, fname: seq<byte>, k: nat)
    requires SlotsEq(disk, d, b)
    ensures FindFile(d, b, fname, k) == FindFile(disk, b, fname, k)
    decreases Slots(disk, b) - k
  {
    if k < Slots(disk, b) { FindFileSame(disk, d, b, fname, k + 1); }
  }

  lemma OtherStillFound(disk: Disk, d: Disk, b: Bpb, name: seq<byte>, first: nat, size: nat, other: seq<byte>, m: nat)
    requires Vol(disk, b) && 0 !in name && |d| == |disk| && first < 0x1_0000 && size < 0x1_0000_0000
    requires FormatName(other) != FormatName(name)
    requires FindFile(disk, b, FormatName(other), 0) == Some(m)
    requires FindSlot(disk, b, 0).Some?
    requires SlotPut(disk, d, b, FindSlot(disk, b, 0).value, DirEntry(FormatName(name), first, size))
    ensures FindFile(d, b, FormatName(other), 0) == Some(m)
    ensures Slot(d, b, m) == Slot(disk, b, m)
  {
    FirstNameByte(name);
    FindFileMeaning(disk, b, FormatName(other), 0, m);
    FindFileMeaning(d, b, FormatName(other), 0, m);
    FindSlotMeaning(disk, b, 0);
    DirEntryMatches(FormatName(name), first, size, FormatName(other));
  }

  lemma OtherSlotReads(disk: Disk, d: Disk, b: Bpb, chain: seq<nat>, m: nat, heapHasRoom: bool, stack: seq<byte>)
    requires Vol(disk, b) && |d| == |disk| && |stack| == FAT_BUFFER
    requires FreeChain(disk, b, chain) && TableGrew(disk, d, b, chain)
    requires SameOtherClusters(disk, d, b, chain)
    requires m < Slots(disk, b) && Slot(d, b, m) == Slot(disk, b, m) && SlotInUse(disk, b, m)
    ensures SlotInUse(d, b, m)
    ensures ReadSlot(d, b, m, heapHasRoom, stack) == ReadSlot(disk, b, m, heapHasRoom, stack)
  {
    var e := Slot(disk, b, m);
    var fat, fat' := FatOf(disk, b), FatOf(d, b);
    ChainInTable(disk, b, chain);
    assert SameOutside(Entries(fat), Entries(fat'), chain);
    hide FatOf, ReadChain, Entries, Slot, SameOutside, VisitsInUse, AllCopies, IsChain, U16, U32, ReadEntry, Increasing,
         MaxClusters, SameOtherClusters;
    ReadChainSame(disk, d, b, chain, fat, fat', stack[512 * b.fatSize..], U16(e, 26), U32(e, 28));
    StillInUse(b, fat, fat', chain, U16(e, 26), U32(e, 28));
  }

  lemma ChainInTable(disk: Disk, b: Bpb, chain: seq<nat>)
    requires Vol(disk, b) && FreeChain(disk, b, chain)
    ensures forall i :: 0 <= i < |chain| ==> 2 <= chain[i] < Capacity(512 * b.fatSize) && ReadEntry(FatOf(disk, b), chain[i]) == 0
  {
  }

  lemma {:induction false} StillInUse(b: Bpb, fat: seq<byte>, fat': seq<byte>, chain: seq<nat>, cluster: nat, size: nat)
    requires ValidBpb(b) && |fat| == |fat'|
    requires forall i :: 0 <= i < |chain| ==> 2 <= chain[i] < Capacity(|fat|) && ReadEntry(fat, chain[i]) == 0
    requires SameOutside(Entries(fat), Entries(fat'), chain)
    requires VisitsInUse(b, fat, cluster, size)
    ensures VisitsInUse(b, fat', cluster, size)
    decreases size
  {
    if size != 0 && InChain(cluster) {
      assert cluster !in chain;
      assert Entries(fat')[cluster] == Entries(fat)[cluster];
      StillInUse(b, fat, fat', chain, ReadEntry(fat, cluster), size - Min(size, ClusterBytes(b)));
    }
  }
}
