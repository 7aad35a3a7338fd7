/** A FAT12 volume on a disk: where its parts lie, and what each driver routine computes from, and
    does to, the sectors.  Everything here is a function of the disk's bytes; the driver's loops are
    proved equal to these functions in Fat12Driver. */
module Fat12Volume {
  import opened Bytes
  import opened Options
  import opened Ide
  import opened FatTable
  import opened Fat12Codec

  // ---- The BIOS parameter block ----

  /** The fields of bpb_t12 that the driver uses. */
  datatype Bpb = Bpb(bytesPerSector: nat, sectorsPerCluster: nat, reserved: nat,
                     numFats: nat, rootEntries: nat, fatSize: nat)

  function ParseBpb(s: Sector): (b: Bpb)
    ensures b.sectorsPerCluster < 0x100 && b.numFats < 0x100
    ensures b.bytesPerSector < 0x1_0000 && b.reserved < 0x1_0000
    ensures b.rootEntries < 0x1_0000 && b.fatSize < 0x1_0000
  {
    Bpb(U16(s, 11), s[13], U16(s, 14), s[16], U16(s, 17), U16(s, 22))
  }

  /** validate_bpb, on fields that fit their widths. */
  predicate ValidBpb(b: Bpb) {
    && b.bytesPerSector == 512
    && 1 <= b.sectorsPerCluster <= 128
    && 1 <= b.reserved < 0x1_0000
    && 1 <= b.numFats <= 2
    && 1 <= b.fatSize < 0x1_0000
    && 1 <= b.rootEntries < 0x1_0000
  }

  /** The local table buffers of the driver hold 12 sectors. */
  const FAT_BUFFER: nat := 512 * 12

  predicate Usable(b: Bpb) {
    ValidBpb(b) && b.fatSize <= 12
  }

  predicate HasBootSector(disk: Disk) {
    |disk| > 0 && disk[0][510] == 0x55 && disk[0][511] == 0xAA
  }

  // ---- Regions ----

  function RootSectors(b: Bpb): nat {
    (b.rootEntries * 32 + 511) / 512
  }

  function RootLba(b: Bpb): nat {
    b.reserved + b.numFats * b.fatSize
  }

  function DataLba(b: Bpb): nat {
    RootLba(b) + RootSectors(b)
  }

  function ClusterLba(b: Bpb, cluster: nat): (lba: nat)
    requires 2 <= cluster
    ensures lba >= DataLba(b)
  {
    DataLba(b) + (cluster - 2) * b.sectorsPerCluster
  }

  function ClusterBytes(b: Bpb): nat {
    512 * b.sectorsPerCluster
  }

  // ---- The file allocation table ----

  predicate FatReadable(disk: Disk, b: Bpb) {
    b.reserved + b.fatSize <= |disk|
  }

  /** The first copy of the table. */
  function FatOf(disk: Disk, b: Bpb): (fat: seq<byte>)
    requires FatReadable(disk, b)
    ensures |fat| == 512 * b.fatSize
  {
    ReadSectors(disk, b.reserved, b.fatSize)
  }

  /** The local buffer after the table was read into it; what lies behind the table is whatever the
      stack held. */
  function FatBuffer(disk: Disk, b: Bpb, stack: seq<byte>): (fat: seq<byte>)
    requires Usable(b) && FatReadable(disk, b) && |stack| == FAT_BUFFER
    ensures |fat| == FAT_BUFFER
  {
    FatOf(disk, b) + stack[512 * b.fatSize..]
  }

  /** The cluster number at which the allocator stops searching. */
  function MaxClusters(b: Bpb): (n: nat)
    ensures n <= 4085
    ensures Usable(b) ==> n <= Capacity(512 * b.fatSize)
  {
    var n := b.fatSize * 512 * 2 / 3 % 0x1_0000;
    if n > 4085 then 4085 else n
  }

  /** `copies` copies of the table, one after the other from sector `start` on. */
  function WriteFats(disk: Disk, copies: nat, size: nat, fat: seq<byte>, start: nat): (d: Disk)
    requires 512 * size <= |fat|
    ensures |d| == |disk|
  {
    if copies == 0 then disk
    else WriteSectors(WriteFats(disk, copies - 1, size, fat, start), start + (copies - 1) * size, size, fat)
  }

  // ---- fat12_alloc_clusters ----

  /** The clusters an allocation of `count` takes; none when it fails. */
  function AllocChain(disk: Disk, b: Bpb, count: nat): (chain: seq<nat>)
    requires Usable(b)
    ensures chain != [] ==> FatReadable(disk, b) && |chain| == count
    ensures InTable(chain, MaxClusters(b))
  {
    if !FatReadable(disk, b) || MaxClusters(b) < 3 then []
    else
      var chain := FirstFree(Entries(FatOf(disk, b))[..MaxClusters(b)], 2, count);
      if |chain| == count then chain else []
  }

  /** The disk after an allocation.  The table writer takes the reserved count as 8 bits. */
  function AllocClusters(disk: Disk, b: Bpb, count: nat): (d: Disk)
    requires Usable(b) && count < 0x1_0000
    ensures |d| == |disk|
  {
    var chain := AllocChain(disk, b, count);
    if chain == [] then disk
    else WriteFats(disk, b.numFats, b.fatSize, LinkedBytes(FatOf(disk, b), chain), b.reserved % 0x100)
  }

  // ---- The root directory ----

  /** How many 32-byte slots of the root directory can be read. */
  function Slots(disk: Disk, b: Bpb): nat {
    if |disk| <= RootLba(b) then 0 else 16 * Min(RootSectors(b), |disk| - RootLba(b))
  }

  function Slot(disk: Disk, b: Bpb, k: nat): (e: seq<byte>)
    requires k < Slots(disk, b)
    ensures |e| == 32
  {
    disk[RootLba(b) + k / 16][k % 16 * 32..k % 16 * 32 + 32]
  }

  /** A sector with the 32 bytes at offset `o` replaced. */
  function PutEntryBytes(s: Sector, o: nat, e: seq<byte>): Sector
    requires o + 32 <= 512 && |e| == 32
  {
    s[..o] + e + s[o + 32..]
  }

  function PutSlot(disk: Disk, b: Bpb, k: nat, e: seq<byte>): (d: Disk)
    requires RootLba(b) + k / 16 < |disk| && |e| == 32
    ensures |d| == |disk|
  {
    var lba := RootLba(b) + k / 16;
    disk[lba := PutEntryBytes(disk[lba], k % 16 * 32, e)]
  }

  const ATTR_VOLUME_ID: nat := 0x08
  const ATTR_DIRECTORY: nat := 0x10
  const ATTR_ARCHIVE: nat := 0x20

  /** A directory entry as fat12_write_dir_entry fills it. */
  function DirEntry(name: seq<byte>, first: nat, size: nat): (e: seq<byte>)
    requires |name| == 11 && first < 0x1_0000 && size < 0x1_0000_0000
    ensures |e| == 32 && e[..11] == name && e[11] == ATTR_ARCHIVE
    ensures U16(e, 26) == first && U32(e, 28) == size
  {
    PutU32(PutU16(name + [ATTR_ARCHIVE] + Zeros(20), 26, first), 28, size)
  }

  predicate IsFree(e: seq<byte>)
    requires |e| == 32
  {
    e[0] == 0x00 || e[0] == 0xE5
  }

  /** The first free slot at or after `k`. */
  function FindSlot(disk: Disk, b: Bpb, k: nat): (r: Option<nat>)
    ensures r.Some? ==> k <= r.value < Slots(disk, b)
    decreases Slots(disk, b) - k
  {
    if k >= Slots(disk, b) then None
    else if IsFree(Slot(disk, b, k)) then Some(k)
    else FindSlot(disk, b, k + 1)
  }

  /** Neither a directory nor a volume label. */
  predicate IsFile(e: seq<byte>)
    requires |e| == 32
  {
    e[11] / 0x10 % 2 == 0 && e[11] / 0x08 % 2 == 0
  }

  /** The slot a lookup of the 8.3 name `name` ends in, scanning from slot `k`. */
  function FindFile(disk: Disk, b: Bpb, name: seq<byte>, k: nat): (r: Option<nat>)
    ensures r.Some? ==> k <= r.value < Slots(disk, b)
    decreases Slots(disk, b) - k
  {
    if k >= Slots(disk, b) then None
    else
      var e := Slot(disk, b, k);
      if e[0] == 0x00 then None
      else if e[0] != 0xE5 && IsFile(e) && e[..11] == name then Some(k)
      else FindFile(disk, b, name, k + 1)
  }

  // ---- 8.3 names ----

  /** The position of the first dot, or the length of the name. */
  function DotAt(name: seq<byte>): (i: nat)
    ensures i <= |name|
    ensures forall j :: 0 <= j < i ==> name[j] != 0x2E
    ensures i < |name| ==> name[i] == 0x2E
  {
    if name == [] || name[0] == 0x2E then 0 else 1 + DotAt(name[1..])
  }

  /** The first `n` characters, padded with spaces. */
  function Padded(s: seq<byte>, n: nat): (r: seq<byte>)
    ensures |r| == n
  {
    s[..Min(|s|, n)] + seq(n - Min(|s|, n), _ => 0x20)
  }

  function Upper(c: byte): byte {
    if 0x61 <= c <= 0x7A then c - 0x20 else c
  }

  /** Up to eight characters before the first dot and up to three after it. */
  function RawName(name: seq<byte>): (r: seq<byte>)
    ensures |r| == 11
  {
    var dot := DotAt(name);
    Padded(name[..dot], 8) + Padded(if dot < |name| then name[dot + 1..] else [], 3)
  }

  /** fat12_format_filename */
  function FormatName(name: seq<byte>): (r: seq<byte>)
    ensures |r| == 11
  {
    var raw := RawName(name);
    seq(11, i requires 0 <= i < 11 => Upper(raw[i]))
  }

  // ---- File contents ----

  /** What one turn of the writing loop puts into a cluster. */
  function ClusterImage(b: Bpb, data: seq<byte>): (r: seq<byte>)
    ensures |r| == ClusterBytes(b)
  {
    var n := Min(|data|, ClusterBytes(b));
    data[..n] + Zeros(ClusterBytes(b) - n)
  }

  predicate InChain(cluster: nat) {
    2 <= cluster < EOC_MIN
  }

  /** The clusters written by following the table from `cluster`. */
  function WriteChain(disk: Disk, b: Bpb, fat: seq<byte>, cluster: nat, data: seq<byte>): (d: Disk)
    requires Usable(b) && |fat| == FAT_BUFFER
    ensures |d| == |disk|
    decreases |data|
  {
    if data == [] || !InChain(cluster) then disk
    else
      var n := Min(|data|, ClusterBytes(b));
      var d := WriteSectors(disk, ClusterLba(b, cluster), b.sectorsPerCluster, ClusterImage(b, data));
      if n == |data| then d else WriteChain(d, b, fat, ReadEntry(fat, cluster), data[n..])
  }

  /** The table after writing: the cluster that took the last byte is marked as the last. */
  function ClosedFat(b: Bpb, fat: seq<byte>, cluster: nat, data: seq<byte>): (r: seq<byte>)
    requires Usable(b) && |fat| == FAT_BUFFER
    ensures |r| == |fat|
    decreases |data|
  {
    if data == [] || !InChain(cluster) then fat
    else
      var n := Min(|data|, ClusterBytes(b));
      if n == |data| then WriteEntry(fat, cluster, EOC_MARK)
      else ClosedFat(b, fat, ReadEntry(fat, cluster), data[n..])
  }

  /** fat12_write_clusters */
  function WriteClusters(disk: Disk, b: Bpb, first: nat, data: seq<byte>, stack: seq<byte>): (d: Disk)
    requires Usable(b) && |stack| == FAT_BUFFER
    ensures |d| == |disk|
  {
    if !FatReadable(disk, b) then disk
    else
      var fat := FatBuffer(disk, b, stack);
      WriteFats(WriteChain(disk, b, fat, first, data), b.numFats, b.fatSize, ClosedFat(b, fat, first, data), b.reserved)
  }

  /** The clusters a file of `size` bytes is given: 32-bit rounding, then a 16-bit count. */
  function ClustersNeeded(b: Bpb, size: nat): (n: nat)
    requires ValidBpb(b)
    ensures 1 <= n < 0x1_0000
  {
    var n := (size + ClusterBytes(b) - 1) % 0x1_0000_0000 / ClusterBytes(b) % 0x1_0000;
    if n == 0 then 1 else n
  }

  /** fat12_write_file on the volume's disk: 0, -2 (no clusters) or -3 (no directory slot). */
  function WriteFile(disk: Disk, b: Bpb, name: seq<byte>, data: seq<byte>, stack: seq<byte>): (r: (Disk, int))
    requires Usable(b) && |stack| == FAT_BUFFER && |data| < 0x1_0000_0000
    ensures |r.0| == |disk|
  {
    var count := ClustersNeeded(b, |data|);
    var chain := AllocChain(disk, b, count);
    if chain == [] then (disk, -2)
    else
      var d1 := AllocClusters(disk, b, count);
      var slot := FindSlot(d1, b, 0);
      if slot == None then (d1, -3)
      else
        var d2 := PutSlot(d1, b, slot.value, DirEntry(FormatName(name), chain[0], |data|));
        (WriteClusters(d2, b, chain[0], data, stack), 0)
  }

  /** The bytes collected by following the table from `cluster`; None on a device error. */
  function ReadChain(disk: Disk, b: Bpb, fat: seq<byte>, cluster: nat, size: nat): (r: Option<seq<byte>>)
    requires Usable(b) && |fat| == FAT_BUFFER
    ensures r.Some? ==> |r.value| <= size
    decreases size
  {
    if size == 0 || !InChain(cluster) then Some([])
    else if ClusterLba(b, cluster) + b.sectorsPerCluster > |disk| then None
    else
      var n := Min(size, ClusterBytes(b));
      var rest := ReadChain(disk, b, fat, ReadEntry(fat, cluster), size - n);
      if rest == None then None
      else Some(ReadSectors(disk, ClusterLba(b, cluster), b.sectorsPerCluster)[..n] + rest.value)
  }

  /** kmalloc refuses empty and oversized requests; otherwise it is up to the heap. */
  predicate HeapGrants(size: nat, heapHasRoom: bool) {
    1 <= size <= 0x1000_0000 && heapHasRoom
  }

  /** The file in slot `k`: the returned buffer and the number of bytes read into it. */
  function ReadSlot(disk: Disk, b: Bpb, k: nat, heapHasRoom: bool, stack: seq<byte>): (r: Option<(seq<byte>, nat)>)
    requires Usable(b) && |stack| == FAT_BUFFER && k < Slots(disk, b)
  {
    var e := Slot(disk, b, k);
    var size := U32(e, 28);
    if !HeapGrants(size, heapHasRoom) || !FatReadable(disk, b) then None
    else
      var bytes := ReadChain(disk, b, FatBuffer(disk, b, stack), U16(e, 26), size);
      if bytes == None then None
      else Some((bytes.value + Zeros(size - |bytes.value|), |bytes.value|))
  }

  /** fat12_read_file on the volume's disk. */
  function ReadFile(disk: Disk, b: Bpb, name: seq<byte>, heapHasRoom: bool, stack: seq<byte>): (r: Option<(seq<byte>, nat)>)
    requires Usable(b) && |stack| == FAT_BUFFER
  {
    var k := FindFile(disk, b, FormatName(name), 0);
    if k == None then None else ReadSlot(disk, b, k.value, heapHasRoom, stack)
  }
}
