/** What each step of writing a file leaves alone: the boot sector, the table copies, the root
    directory and the data area do not overlap. */
module Fat12Effects {
  import opened Bytes
  import opened Options
  import opened Ide
  import opened FatTable
  import opened Fat12Codec
  import opened Fat12Volume
  import opened Fat12Chains

  /** A volume whose table and root directory lie on the device, and whose reserved count survives
      being passed as 8 bits. */
  predicate Vol(disk: Disk, b: Bpb) {
    Usable(b) && b.reserved <= 0xFF && FatReadable(disk, b) && DataLba(b) <= |disk|
  }

  lemma Regions(b: Bpb)
    requires Usable(b)
    ensures 1 <= b.reserved && b.reserved + b.fatSize <= RootLba(b) <= DataLba(b)
    ensures b.numFats == 1 ==> RootLba(b) == b.reserved + b.fatSize
    ensures b.numFats == 2 ==> RootLba(b) == b.reserved + 2 * b.fatSize
  {
  }

  // ---- The table copies ----

  /** Every copy of the table holds `fat`. */
  ghost predicate AllCopies(disk: Disk, b: Bpb, fat: seq<byte>)
    requires Vol(disk, b)
  {
    Regions(b);
    && FatOf(disk, b) == fat
    && (b.numFats == 2 ==> ReadSectors(disk, b.reserved + b.fatSize, b.fatSize) == fat)
  }

  ghost predicate SameOutsideFats(disk: Disk, d: Disk, b: Bpb) {
    && |d| == |disk|
    && forall j :: 0 <= j < |disk| && !(b.reserved <= j < RootLba(b)) ==> d[j] == disk[j]
  }

  lemma WriteFatsEffect(disk: Disk, b: Bpb, fat: seq<byte>)
    requires Vol(disk, b) && 512 * b.fatSize <= |fat|
    ensures var d := WriteFats(disk, b.numFats, b.fatSize, fat, b.reserved);
            SameOutsideFats(disk, d, b) && AllCopies(d, b, fat[..512 * b.fatSize])
  {
    Regions(b);
    var n := b.fatSize;
    var table := fat[..512 * n];
    var d1 := WriteSectors(disk, b.reserved, n, fat);
    FirstPart(disk, b.reserved, n, fat);
    hide ReadSectors;
    assert WriteFats(disk, 1, n, fat, b.reserved) == d1 by {
      assert WriteFats(disk, 0, n, fat, b.reserved) == disk;
    }
    if b.numFats == 2 {
      var d2 := WriteSectors(d1, b.reserved + n, n, fat);
      assert WriteFats(disk, 2, n, fat, b.reserved) == d2;
      FirstPart(d1, b.reserved + n, n, fat);
      ReadSame(d1, d2, b.reserved, n);
    }
  }

  lemma FirstPart(disk: Disk, lba: nat, n: nat, fat: seq<byte>)
    requires 512 * n <= |fat| && lba + n <= |disk|
    ensures ReadSectors(WriteSectors(disk, lba, n, fat), lba, n) == fat[..512 * n]
  {
    var table := fat[..512 * n];
    ReadBack(disk, lba, n, table);
    var x, y := WriteSectors(disk, lba, n, fat), WriteSectors(disk, lba, n, table);
    forall j | 0 <= j < |disk|
      ensures x[j] == y[j]
    {
      if lba <= j < lba + n {
        var k := j - lba;
        assert 512 * (k + 1) <= 512 * n;
        assert table[512 * k..512 * (k + 1)] == fat[512 * k..512 * (k + 1)];
      }
    }
    assert x == y;
  }

  lemma FatUnchanged(disk: Disk, d: Disk, b: Bpb)
    requires Vol(disk, b) && |d| == |disk|
    requires forall j :: b.reserved <= j < b.reserved + b.fatSize ==> d[j] == disk[j]
    ensures FatOf(d, b) == FatOf(disk, b)
  {
    ReadSame(disk, d, b.reserved, b.fatSize);
  }

  // ---- Allocation ----

  /** Entries of the table proper do not depend on what the buffer holds behind it. */
  lemma EntryInBuffer(fat: seq<byte>, junk: seq<byte>, c: nat)
    requires c < Capacity(|fat|)
    ensures ReadEntry(fat + junk, c) == ReadEntry(fat, c)
  {
    if c >= 2 {
      var o := Offset(c);
      assert (fat + junk)[o] == fat[o] && (fat + junk)[o + 1] == fat[o + 1];
    }
  }

  lemma AllocChainFree(disk: Disk, b: Bpb, count: nat)
    requires Usable(b) && AllocChain(disk, b, count) != []
    ensures var chain := AllocChain(disk, b, count);
            && |chain| == count && Increasing(chain) && Clusters(chain)
            && Linkable(FatOf(disk, b), chain)
            && forall i :: 0 <= i < |chain| ==> chain[i] < MaxClusters(b) && ReadEntry(FatOf(disk, b), chain[i]) == 0
  {
    var t := Entries(FatOf(disk, b));
    var chain := AllocChain(disk, b, count);
    FirstFreeIncreasing(t[..MaxClusters(b)], 2, count);
    forall i | 0 <= i < |chain|
      ensures 2 <= chain[i] < MaxClusters(b) && ReadEntry(FatOf(disk, b), chain[i]) == 0
    {
      assert t[..MaxClusters(b)][chain[i]] == 0;
    }
  }

  lemma AllocWrites(disk: Disk, b: Bpb, count: nat)
    requires Usable(b) && b.reserved <= 0xFF && count < 0x1_0000 && AllocChain(disk, b, count) != []
    ensures AllocClusters(disk, b, count) ==
            WriteFats(disk, b.numFats, b.fatSize, LinkedBytes(FatOf(disk, b), AllocChain(disk, b, count)), b.reserved)
  {
    assert b.reserved % 0x100 == b.reserved;
  }

  /** A successful allocation: the chain is the first free clusters, it is linked in the table, all
      copies of the table agree, and nothing outside them changes. */
  lemma AllocEffect(disk: Disk, b: Bpb, count: nat)
    requires Vol(disk, b) && 1 <= count < 0x1_0000
    requires AllocChain(disk, b, count) != []
    ensures var chain, d := AllocChain(disk, b, count), AllocClusters(disk, b, count);
            && |chain| == count && Increasing(chain) && Clusters(chain)
            && (forall i :: 0 <= i < |chain| ==> chain[i] < MaxClusters(b) && ReadEntry(FatOf(disk, b), chain[i]) == 0)
            && SameOutsideFats(disk, d, b)
            && AllCopies(d, b, FatOf(d, b))
            && Linked(Entries(FatOf(disk, b)), Entries(FatOf(d, b)), chain, EOC_MARK)
  {
    var fat := FatOf(disk, b);
    var chain := AllocChain(disk, b, count);
    AllocChainFree(disk, b, count);
    AllocWrites(disk, b, count);
    LinkedBytesLink(fat, chain);
    var fat' := LinkedBytes(fat, chain);
    assert fat'[..512 * b.fatSize] == fat';
    WriteFatsEffect(disk, b, fat');
    hide FatOf, AllocChain, AllocClusters, WriteFats, LinkedBytes, Entries, Linked, Increasing, MaxClusters;
  }

  /** The buffer read after an allocation leads along the chain. */
  lemma AllocFollows(fat: seq<byte>, junk: seq<byte>, chain: seq<nat>)
    requires |fat + junk| == FAT_BUFFER && chain != []
    requires IsChain(Entries(fat), chain, EOC_MARK)
    requires forall i :: 0 <= i < |chain| ==> 2 <= chain[i] < 4085
    ensures Follows(fat + junk, chain)
    decreases |chain|
  {
    var c := chain[0];
    assert Entries(fat)[c] == Successor(chain, EOC_MARK, 0);
    EntryInBuffer(fat, junk, c);
    if |chain| > 1 {
      var tail := chain[1..];
      forall i | 0 <= i < |tail|
        ensures tail[i] < |Entries(fat)| && Entries(fat)[tail[i]] == Successor(tail, EOC_MARK, i)
      {
        assert Entries(fat)[chain[i + 1]] == Successor(chain, EOC_MARK, i + 1);
      }
      AllocFollows(fat, junk, tail);
    }
  }

  // ---- Directory slots ----

  /** The directory is the same, slot for slot. */
  ghost predicate SlotsEq(disk: Disk, d: Disk, b: Bpb) {
    && |d| == |disk|
    && forall i :: 0 <= i < Slots(disk, b) ==> Slot(d, b, i) == Slot(disk, b, i)
  }

  /** The directory is the same but for slot `k`, which holds `e`. */
  ghost predicate SlotPut(disk: Disk, d: Disk, b: Bpb, k: nat, e: seq<byte>) {
    && |d| == |disk| && k < Slots(disk, b)
    && forall i :: 0 <= i < Slots(disk, b) ==> Slot(d, b, i) == if i == k then e else Slot(disk, b, i)
  }

  /** Replacing a slot replaces that slot only. */
  lemma PutSlotEffect(disk: Disk, b: Bpb, k: nat, e: seq<byte>)
    requires Vol(disk, b) && k < Slots(disk, b) && |e| == 32
    ensures var d := PutSlot(disk, b, k, e);
            && SlotPut(disk, d, b, k, e)
            && SameOutsideRoot(disk, d, b)
  {
    var d := PutSlot(disk, b, k, e);
    forall i | 0 <= i < Slots(disk, b)
      ensures Slot(d, b, i) == if i == k then e else Slot(disk, b, i)
    {
      if i / 16 == k / 16 {
        SlotInPutSector(disk[RootLba(b) + k / 16], k % 16, e, i % 16);
        assert i == k <==> i % 16 == k % 16;
      }
    }
  }

  ghost predicate SameOutsideRoot(disk: Disk, d: Disk, b: Bpb) {
    && |d| == |disk|
    && forall j :: 0 <= j < |disk| && !(RootLba(b) <= j < DataLba(b)) ==> d[j] == disk[j]
  }

  lemma SlotInPutSector(s: Sector, p: nat, e: seq<byte>, q: nat)
    requires p < 16 && q < 16 && |e| == 32
    ensures PutEntryBytes(s, p * 32, e)[q * 32..q * 32 + 32] == if p == q then e else s[q * 32..q * 32 + 32]
  {
    var r := PutEntryBytes(s, p * 32, e);
    if p == q {
    } else if q < p {
      assert q * 32 + 32 <= p * 32;
      assert r[..p * 32] == s[..p * 32];
      assert r[q * 32..q * 32 + 32] == r[..p * 32][q * 32..q * 32 + 32];
    } else {
      assert r[p * 32 + 32..] == s[p * 32 + 32..];
      var o := (q - p - 1) * 32;
      assert r[q * 32..q * 32 + 32] == r[p * 32 + 32..][o..o + 32];
      assert s[q * 32..q * 32 + 32] == s[p * 32 + 32..][o..o + 32];
    }
  }

  ghost predicate SameRoot(disk: Disk, d: Disk, b: Bpb) {
    && |d| == |disk|
    && forall j :: RootLba(b) <= j < DataLba(b) && j < |disk| ==> d[j] == disk[j]
  }

  lemma SlotsSame(disk: Disk, d: Disk, b: Bpb)
    requires SameRoot(disk, d, b)
    ensures SlotsEq(disk, d, b)
  {
    forall k | 0 <= k < Slots(disk, b)
      ensures Slot(d, b, k) == Slot(disk, b, k)
    {
      assert d[RootLba(b) + k / 16] == disk[RootLba(b) + k / 16];
    }
  }

  /** The first free slot, in terms of the slots before it. */
  lemma {:induction false} FindSlotMeaning(disk: Disk, b: Bpb, k: nat)
    ensures var r := FindSlot(disk, b, k);
            && (r.Some? ==> IsFree(Slot(disk, b, r.value))
                            && forall i :: k <= i < r.value ==> !IsFree(Slot(disk, b, i)))
            && (r.None? ==> forall i :: k <= i < Slots(disk, b) ==> !IsFree(Slot(disk, b, i)))
    decreases Slots(disk, b) - k
  {
    if k < Slots(disk, b) && !IsFree(Slot(disk, b, k)) {
      FindSlotMeaning(disk, b, k + 1);
    }
  }

  /** A slot that a lookup of `name` stops at with success. */
  predicate Matches(e: seq<byte>, name: seq<byte>)
    requires |e| == 32
  {
    e[0] != 0x00 && e[0] != 0xE5 && IsFile(e) && e[..11] == name
  }

  /** The first matching slot, provided no end mark comes before it. */
  lemma {:induction false} FindFileMeaning(disk: Disk, b: Bpb, name: seq<byte>, k: nat, m: nat)
    requires k <= m < Slots(disk, b)
    ensures FindFile(disk, b, name, k) == Some(m) <==>
            (Matches(Slot(disk, b, m), name)
             && forall i :: k <= i < m ==> Slot(disk, b, i)[0] != 0x00 && !Matches(Slot(disk, b, i), name))
    decreases m - k
  {
    if k < m && Slot(disk, b, k)[0] != 0x00 && !Matches(Slot(disk, b, k), name) {
      FindFileMeaning(disk, b, name, k + 1, m);
    } else if k < m {
      assert FindFile(disk, b, name, k) == None || FindFile(disk, b, name, k) == Some(k);
    }
  }

  /** A lookup that reaches slot `m` without a match continues there. */
  lemma {:induction false} FindFileSkips(disk: Disk, b: Bpb, name: seq<byte>, k: nat, m: nat)
    requires k <= m <= Slots(disk, b)
    requires forall i :: k <= i < m ==> Slot(disk, b, i)[0] != 0x00 && !Matches(Slot(disk, b, i), name)
    ensures FindFile(disk, b, name, k) == FindFile(disk, b, name, m)
    decreases m - k
  {
    if k < m {
      FindFileSkips(disk, b, name, k + 1, m);
    }
  }

  lemma NeverMatches(disk: Disk, b: Bpb, name: seq<byte>, k: nat)
    requires |name| == 11 && (name[0] == 0xE5 || name[0] == 0x00)
    ensures FindFile(disk, b, name, k) == None
    decreases Slots(disk, b) - k
  {
    if k < Slots(disk, b) {
      var e := Slot(disk, b, k);
      assert e[..11] == name ==> e[0] == name[0];
      NeverMatches(disk, b, name, k + 1);
    }
  }

  lemma DirEntryMatches(name: seq<byte>, first: nat, size: nat, other: seq<byte>)
    requires |name| == 11 && first < 0x1_0000 && size < 0x1_0000_0000
    ensures var e := DirEntry(name, first, size);
            && e[0] == name[0]
            && (Matches(e, other) <==> name == other && name[0] != 0x00 && name[0] != 0xE5)
  {
    var e := DirEntry(name, first, size);
    assert e[0] == e[..11][0];
  }

  // ---- Names ----

  /** The first byte of a formatted name: never the end mark, and the deletion mark only if the
      name itself starts with it. */
  lemma FirstNameByte(name: seq<byte>)
    requires 0 !in name
    ensures FormatName(name)[0] != 0x00
    ensures FormatName(name)[0] == 0xE5 <==> name != [] && name[0] == 0xE5
  {
    var dot := DotAt(name);
    var raw := RawName(name);
    assert FormatName(name)[0] == Upper(raw[0]);
    assert raw[0] == Padded(name[..dot], 8)[0];
    if name != [] && name[0] != 0x2E {
      assert dot > 0 && raw[0] == name[0];
      assert name[0] in name;
    } else {
      assert raw[0] == 0x20;
    }
  }
}
