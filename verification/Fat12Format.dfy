/** Formatting: the geometry computed for a device, the image written, and why a freshly formatted
    volume is an empty file system. */
module Fat12Format {
  import opened Bytes
  import opened Options
  import opened Ide
  import opened FatTable
  import opened Fat12Codec
  import opened Fat12Volume
  import opened Fat12Chains
  import opened Fat12Effects
  import opened Fat12Runs
  import opened Fat12Driver

  const WORD: nat := 0x1_0000_0000

  /** Unsigned 32-bit subtraction. */
  function Sub32(a: nat, b: nat): nat {
    (a - b) % WORD
  }

  // ---- Geometry ----

  datatype Geometry = Geometry(sectorsPerCluster: nat, fatSize: nat, clusters: nat)

  function FirstGuess(total: nat): nat {
    if total > 16336 then 8 else if total > 8168 then 4 else if total > 4084 then 2 else 1
  }

  /** Table sectors before the result is cut to 16 bits. */
  function TableSectors(total: nat): nat {
    var tmp2 := 256 * FirstGuess(total) + 2;
    (Sub32(total, 15) + (tmp2 - 1)) % WORD / tmp2
  }

  function TableSize(total: nat): (n: nat)
    ensures 1 <= n < 0x1_0000
  {
    var n := TableSectors(total) % 0x1_0000;
    if n < 1 then 1 else n
  }

  function DataSectors(total: nat): nat {
    Sub32(total, 15 + 2 * TableSize(total))
  }

  /** How many clusters of `spc` sectors fit. */
  function WholeClusters(sectors: nat, spc: nat): nat
    requires spc > 0
  {
    sectors / spc
  }

  predicate IsClusterSize(s: nat) {
    s == 1 || s == 2 || s == 4 || s == 8 || s == 16 || s == 32 || s == 64 || s == 128
  }

  /** The doubling loop: at most 4084 clusters, or clusters of 128 sectors. */
  function Doubled(spc: nat, dataSectors: nat): (r: nat)
    requires IsClusterSize(spc)
    ensures IsClusterSize(r) && spc <= r
    ensures WholeClusters(dataSectors, r) <= 4084 || r == 128
    decreases 128 - spc
  {
    if WholeClusters(dataSectors, spc) > 4084 && spc < 128 then Doubled(2 * spc, dataSectors) else spc
  }

  lemma DoubledStep(spc: nat, dataSectors: nat)
    requires IsClusterSize(spc)
    ensures Doubled(spc, dataSectors) ==
            if WholeClusters(dataSectors, spc) > 4084 && spc < 128 then Doubled(2 * spc, dataSectors) else spc
    ensures 1 <= spc <= 128 && (spc < 128 ==> IsClusterSize(2 * spc))
  {
  }

  function GeometryOf(total: nat): Geometry {
    var spc := Doubled(FirstGuess(total), DataSectors(total));
    Geometry(spc, TableSize(total), WholeClusters(DataSectors(total), spc))
  }

  /** The first guess of format_fat12 and the table it leads to. */
  method FirstGeometry(total: nat) returns (spc: nat, fatSize: nat, dataSectors: nat)
    requires 1 <= total < WORD
    ensures spc == FirstGuess(total) && IsClusterSize(spc) && 1 <= spc <= 128
    ensures fatSize == TableSize(total) && dataSectors == DataSectors(total)
  {
    spc := 1;
    if total > 4084 { spc := 2; }
    if total > 8168 { spc := 4; }
    if total > 16336 { spc := 8; }
    var rootDirSectors := (224 * 32 + 511) / 512;
    var tmp1 := (total - (1 + rootDirSectors)) % WORD;
    var tmp2 := 256 * spc + 2;
    fatSize := (tmp1 + (tmp2 - 1)) % WORD / tmp2 % 0x1_0000;
    if fatSize < 1 { fatSize := 1; }
    assert fatSize == TableSize(total);
    hide TableSize;
    dataSectors := (total - (1 + 2 * fatSize + rootDirSectors)) % WORD;
  }

  /** The geometry part of format_fat12, as the driver computes it. */
  method ComputeGeometry(total: nat) returns (g: Geometry)
    requires 1 <= total < WORD
    ensures g == GeometryOf(total)
  {
    var spc, fatSize, dataSectors := FirstGeometry(total);
    hide TableSize, DataSectors, Doubled, FirstGuess, IsClusterSize, WholeClusters;
    var totalClusters := WholeClusters(dataSectors, spc);
    DoubledStep(spc, dataSectors);
    while totalClusters > 4084 && spc < 128
      invariant IsClusterSize(spc) && 1 <= spc <= 128
      invariant totalClusters == WholeClusters(dataSectors, spc)
      invariant Doubled(spc, dataSectors) == Doubled(FirstGuess(total), dataSectors)
      decreases 128 - spc
    {
      DoubledStep(spc, dataSectors);
      spc := spc * 2;
      DoubledStep(spc, dataSectors);
      totalClusters := WholeClusters(dataSectors, spc);
    }
    g := Geometry(spc, fatSize, totalClusters);
  }

  /** Format geometry: on every device of at least 17 sectors whose table size neither wrapped around nor was cut, the table
      has an entry for every cluster, the regions follow one another on the device with all data
      clusters inside, and the cluster size is a power of two that the doubling loop chose. */
  lemma GeometryFits(total: nat)
    requires 17 <= total < WORD - 2034 && TableSectors(total) < 0x1_0000
    ensures var g := GeometryOf(total);
            && g.clusters + 2 <= Capacity(512 * g.fatSize)
            && 15 + 2 * g.fatSize <= total
            && 15 + 2 * g.fatSize + g.clusters * g.sectorsPerCluster <= total
            && (g.clusters <= 4084 || g.sectorsPerCluster == 128)
  {
    var f, s := TableSize(total), FirstGuess(total);
    var g := GeometryOf(total);
    TableSizeBounds(total);
    ClustersBound(total - 15 - 2 * f, s, g.sectorsPerCluster, f);
    assert g.clusters * g.sectorsPerCluster <= DataSectors(total);
  }

  /** A device of 2^28 sectors or more has a table size that fits 16 bits only when its computation wraps
      around 32 bits, that is for the last 2034 sizes: the ones the bound on `total` above leaves out. */
  lemma HugeDevices(total: nat)
    requires 0x1000_0000 <= total < WORD
    ensures TableSectors(total) < 0x1_0000 <==> total + 2034 >= WORD
  {
    var tmp2 := 256 * FirstGuess(total) + 2;
    assert tmp2 == 2050;
    assert Sub32(total, 15) == total - 15;
    if total + 2034 >= WORD {
      WrapOnce(total - 15 + 2049);
    }
  }

  lemma WrapOnce(x: nat)
    requires WORD <= x < WORD + 2050
    ensures x % WORD == x - WORD && x % WORD / 2050 == 0
  {
  }

  lemma TableSizeBounds(total: nat)
    requires 17 <= total < WORD - 2034 && TableSectors(total) < 0x1_0000
    ensures var f, tmp2 := TableSize(total), 256 * FirstGuess(total) + 2;
            && f == TableSectors(total) == (total - 15 + (tmp2 - 1)) / tmp2
            && (f - 1) * tmp2 < total - 15 <= f * tmp2
            && 15 + 2 * f <= total
            && DataSectors(total) == total - 15 - 2 * f
  {
    var tmp2 := 256 * FirstGuess(total) + 2;
    var f := (total - 15 + (tmp2 - 1)) / tmp2;
    assert 258 <= tmp2 <= 2050;
    assert Sub32(total, 15) == total - 15;
    assert (total - 15 + (tmp2 - 1)) % WORD == total - 15 + (tmp2 - 1);
    assert f == TableSectors(total);
    RoundedUp(total - 15, tmp2);
    MulAtMost(258, tmp2, f - 1);
    hide TableSectors, FirstGuess;
    assert 15 + 2 * f <= total;
  }

  lemma RoundedUp(n: nat, t: nat)
    requires n > 0 && t > 0
    ensures var f := (n + (t - 1)) / t; f >= 1 && (f - 1) * t < n <= f * t
  {
    var f := (n + (t - 1)) / t;
    assert n + (t - 1) == f * t + (n + (t - 1)) % t;
  }

  lemma ClustersBound(data: nat, s: nat, spc: nat, f: nat)
    requires 1 <= s <= spc && data + 2 * f <= f * (256 * s + 2)
    ensures data / spc <= 256 * f
    ensures data / spc * spc <= data
  {
    assert f * (256 * s + 2) == 256 * f * s + 2 * f;
    assert 256 * f * s <= 256 * f * spc;
    assert data <= 256 * f * spc;
    QuotientAtMost(data, 256 * f, spc);
  }

  lemma QuotientAtMost(a: nat, q: nat, d: nat)
    requires d > 0 && a <= q * d
    ensures a / d <= q && a / d * d <= a
  {
    if a / d > q {
      MulAtMost(q + 1, a / d, d);
      assert false;
    }
  }

  /** The devices whose formatted table fits the 12-sector buffers of the other routines. */
  lemma FitsBuffers(total: nat)
    requires 17 <= total < WORD - 2034 && TableSectors(total) < 0x1_0000
    ensures GeometryOf(total).fatSize <= 12 <==>
              total <= 3111 || 4085 <= total <= 6183 || 8169 <= total <= 12327 || 16337 <= total <= 24615
  {
    TableSizeBounds(total);
    hide TableSectors;
    AtMostTwelve(total - 15, 256 * FirstGuess(total) + 2, TableSize(total));
  }

  lemma AtMostTwelve(n: int, t: int, f: int)
    requires t > 0 && (f - 1) * t < n <= f * t
    ensures f <= 12 <==> n <= 12 * t
  {
    if f <= 12 { MulAtMost(f, 12, t); } else { MulAtMost(12, f - 1, t); }
  }

  /** On every formatted volume the other routines can use, the allocator's limit lies beyond the
      last cluster that fits on the device: the next number is still handed out. */
  lemma LimitPastDevice(total: nat, disk: Disk)
    requires 17 <= total < WORD - 2034 && GeometryOf(total).fatSize <= 12 && TableSectors(total) < 0x1_0000
    requires |disk| == total
    ensures var b, c := FormattedBpb(total), GeometryOf(total).clusters + 2;
            Usable(b) && c < MaxClusters(b) && !OnDevice(disk, b, c)
  {
    var f, s, g := TableSize(total), FirstGuess(total), GeometryOf(total);
    TableSizeBounds(total);
    ClustersBound(total - 15 - 2 * f, s, g.sectorsPerCluster, f);
    OneMoreCluster(DataSectors(total), g.sectorsPerCluster);
    assert g.clusters <= 256 * f && 1 <= f <= 12;
    FormattedLba(total);
    LimitAbove(FormattedBpb(total));
    hide GeometryOf, TableSize, TableSectors, DataSectors, FirstGuess, DataLba, MaxClusters, WholeClusters;
  }

  lemma LimitAbove(b: Bpb)
    requires 1 <= b.fatSize <= 12
    ensures 256 * b.fatSize + 2 < MaxClusters(b)
  {
    var f := b.fatSize;
    assert f * 512 * 2 / 3 >= 341 * f;
  }

  lemma FormattedLba(total: nat)
    ensures DataLba(FormattedBpb(total)) == 15 + 2 * TableSize(total)
  {
    assert RootSectors(FormattedBpb(total)) == 14;
  }

  lemma OneMoreCluster(sectors: nat, spc: nat)
    requires spc > 0
    ensures WholeClusters(sectors, spc) * spc + spc > sectors
  {
  }

  // ---- The image ----

  function FormattedBpb(total: nat): Bpb {
    Bpb(512, GeometryOf(total).sectorsPerCluster, 1, 2, 224, GeometryOf(total).fatSize)
  }

  /** "mkfs.fat", or the given name cut or padded to eight characters. */
  function OemName(oem: seq<byte>): (r: seq<byte>)
    ensures |r| == 8
  {
    if oem == [] then [0x6D, 0x6B, 0x66, 0x73, 0x2E, 0x66, 0x61, 0x74] else Padded(oem, 8)
  }

  /** "NO NAME    FAT12   ": volume label and file system type. */
  function Labels(): (r: seq<byte>)
    ensures |r| == 19
  {
    [0x4E, 0x4F, 0x20, 0x4E, 0x41, 0x4D, 0x45, 0x20, 0x20, 0x20, 0x20, 0x46, 0x41, 0x54, 0x31, 0x32, 0x20, 0x20, 0x20]
  }

  /** The first 62 bytes of the boot sector. */
  function Header(total: nat, g: Geometry, oem: seq<byte>): (r: seq<byte>)
    requires total < WORD && g.sectorsPerCluster < 0x100 && g.fatSize < 0x1_0000
    ensures |r| == 62
  {
    var small := total <= 0xFFFF;
    [0xEB, 0x3C, 0x90] + OemName(oem)
    + [0x00, 0x02, g.sectorsPerCluster, 1, 0, 2, 224, 0]
    + (if small then [total % 0x100, total / 0x100] else [0, 0])
    + [0xF8, g.fatSize % 0x100, g.fatSize / 0x100, 63, 0, 16, 0, 0, 0, 0, 0]
    + (if small then [0, 0, 0, 0]
       else [total % 0x100, total / 0x100 % 0x100, total / 0x1_0000 % 0x100, total / 0x100_0000])
    + [0x80, 0, 0x29, 0x78, 0x56, 0x34, 0x12] + Labels()
  }

  function BootSector(total: nat, g: Geometry, oem: seq<byte>): Sector
    requires total < WORD && g.sectorsPerCluster < 0x100 && g.fatSize < 0x1_0000
  {
    Header(total, g, oem) + Zeros(448) + [0x55, 0xAA]
  }

  lemma BootSectorParses(total: nat, oem: seq<byte>)
    requires total < WORD
    ensures var s := BootSector(total, GeometryOf(total), oem);
            s[510] == 0x55 && s[511] == 0xAA && ParseBpb(s) == FormattedBpb(total)
  {
    var g := GeometryOf(total);
    var h := Header(total, g, oem);
    var s := BootSector(total, g, oem);
    assert s[..62] == h;
    assert h[11] == 0x00 && h[12] == 0x02 && h[13] == g.sectorsPerCluster && h[14] == 1 && h[15] == 0 && h[16] == 2
        && h[17] == 224 && h[18] == 0 && h[22] == g.fatSize % 0x100 && h[23] == g.fatSize / 0x100;
    assert forall i :: 0 <= i < 62 ==> s[i] == h[i];
  }

  /** The first sector of the first table copy. */
  function TableHead(): Sector {
    [0xF8, 0xFF, 0xFF] + Zeros(509)
  }

  function FormattedSector(total: nat, oem: seq<byte>, j: nat): Sector
    requires total < WORD
  {
    if j == 0 then BootSector(total, GeometryOf(total), oem)
    else if j == 1 && GeometryOf(total).fatSize % 0x100 != 0 then TableHead()
    else Zeros(512)
  }

  /** Everything format_fat12 leaves on the device: the boot sector, one table head - the second copy
      of the table gets none - and zeros. */
  function FormatDisk(total: nat, oem: seq<byte>): (d: Disk)
    requires total < WORD
    ensures |d| == total
  {
    seq(total, j requires 0 <= j < total => FormattedSector(total, oem, j))
  }

  /** Formatting a device leaves a valid volume that represents the empty file system. */
  lemma FormattedIsEmpty(total: nat, oem: seq<byte>)
    requires 17 <= total < WORD - 2034 && TableSectors(total) < 0x1_0000 && GeometryOf(total).fatSize <= 12
    ensures var d, b := FormatDisk(total, oem), FormattedBpb(total);
            && HasBootSector(d) && ParseBpb(d[0]) == b && Usable(b)
            && Represents(d, b, Fs([], []))
  {
    var d, b := FormatDisk(total, oem), FormattedBpb(total);
    BootSectorParses(total, oem);
    GeometryFits(total);
    assert RootSectors(b) == 14 && DataLba(b) == 15 + 2 * b.fatSize;
    assert Vol(d, b);
    FormattedTable(total, oem);
    forall k | 0 <= k < Slots(d, b)
      ensures Slot(d, b, k)[0] == 0x00
    {
      assert d[RootLba(b) + k / 16] == Zeros(512);
    }
  }

  lemma FormattedTable(total: nat, oem: seq<byte>)
    requires 17 <= total < WORD - 2034 && GeometryOf(total).fatSize <= 12
    requires 15 + 2 * GeometryOf(total).fatSize <= total
    ensures var d, b := FormatDisk(total, oem), FormattedBpb(total);
            FatReadable(d, b) && ChainsOk(Entries(FatOf(d, b)), MaxClusters(b), [])
  {
    var d, b := FormatDisk(total, oem), FormattedBpb(total);
    var fat := FatOf(d, b);
    hide GeometryOf, BootSector;
    forall i | 3 <= i < |fat|
      ensures fat[i] == 0
    {
      assert fat[i] == d[1 + i / 512][i % 512];
      assert d[1 + i / 512] == FormattedSector(total, oem, 1 + i / 512);
    }
    ZeroEntries(fat);
  }

  lemma ZeroEntries(fat: seq<byte>)
    requires forall i :: 3 <= i < |fat| ==> fat[i] == 0
    ensures forall c :: 2 <= c < Capacity(|fat|) ==> Entries(fat)[c] == 0
  {
    forall c | 2 <= c < Capacity(|fat|)
      ensures Entries(fat)[c] == 0
    {
      assert fat[Offset(c)] == 0 && fat[Offset(c) + 1] == 0;
    }
  }

  /** From a freshly formatted device, every run of writes is in step with the model that starts
      empty: all chains acyclic, end-marked, disjoint, and exactly the clusters in use. */
  lemma FormattedRuns(total: nat, oem: seq<byte>, ops: seq<Op>)
    requires 17 <= total < WORD - 2034 && TableSectors(total) < 0x1_0000 && GeometryOf(total).fatSize <= 12
    requires AllCallable(ops)
    ensures var b := FormattedBpb(total);
            Usable(b) && Represents(RunDisk(FormatDisk(total, oem), b, ops), b, RunModel(Fs([], []), b, 224, ops))
  {
    var d, b := FormatDisk(total, oem), FormattedBpb(total);
    FormattedIsEmpty(total, oem);
    assert RootSectors(b) == 14 && Slots(d, b) == 224 by { GeometryFits(total); }
    RunRefines(d, b, Fs([], []), ops);
  }

  /** A first file of at most one byte on a formatted device: the write reports success whatever the
      name, also for an empty file, which never reads back. One byte reads back exactly when the device
      has a cluster. */
  lemma FirstWrite(total: nat, oem: seq<byte>, name: seq<byte>, data: seq<byte>, stackW: seq<byte>, stackR: seq<byte>)
    requires 17 <= total < WORD - 2034 && TableSectors(total) < 0x1_0000 && GeometryOf(total).fatSize <= 12
    requires |data| <= 1 && 0 !in name && (name == [] || name[0] != 0xE5) && |stackW| == |stackR| == FAT_BUFFER
    ensures var b := FormattedBpb(total);
            && Usable(b)
            && var (d, r) := WriteFile(FormatDisk(total, oem), b, name, data, stackW);
               && r == 0
               && (ReadFile(d, b, name, true, stackR) == Some((data, |data|)) <==> |data| == 1 && GeometryOf(total).clusters >= 1)
  {
    FormattedIsEmpty(total, oem);
    hide *;
    var disk, b := FormatDisk(total, oem), FormattedBpb(total);
    var fs := Fs([[2]], [File(FormatName(name), 0, data)]);
    var (d, r) := WriteFile(disk, b, name, data, stackW);
    FirstRefines(total, oem, name, data, stackW);
    ReadRefines(d, b, fs, name, true, stackR);
    FirstFound(name, data);
    FirstOnDevice(total, d, |data|);
  }

  lemma FirstRefines(total: nat, oem: seq<byte>, name: seq<byte>, data: seq<byte>, stack: seq<byte>)
    requires 17 <= total < WORD - 2034 && TableSectors(total) < 0x1_0000 && GeometryOf(total).fatSize <= 12
    requires |data| <= 1 && 0 !in name && |stack| == FAT_BUFFER
    ensures var b := FormattedBpb(total);
            && Usable(b)
            && var (d, r) := WriteFile(FormatDisk(total, oem), b, name, data, stack);
               r == 0 && |d| == total && Represents(d, b, Fs([[2]], [File(FormatName(name), 0, data)]))
  {
    var disk, b := FormatDisk(total, oem), FormattedBpb(total);
    FormattedIsEmpty(total, oem);
    GeometryFits(total);
    assert RootSectors(b) == 14 && Slots(disk, b) == 224 && |disk| == total;
    LimitAbove(b);
    OneNeeded(b, |data|);
    assert Usable(b);
    WriteRefines(disk, b, Fs([], []), Op(name, data, stack));
    hide WriteFile, Represents, GeometryOf, TableSectors, FormatDisk, FormattedBpb, MaxClusters, FormatName;
    FirstModel(b, name, data);
  }

  lemma OneNeeded(b: Bpb, size: nat)
    requires ValidBpb(b) && size <= 1
    ensures ClustersNeeded(b, size) == 1 && CeilClusters(b, size) <= 1
  {
    var c := ClusterBytes(b);
    assert 512 <= c <= 0x1_0000;
    hide ClusterBytes;
    Quotients(c);
    assert (size + c - 1) % 0x1_0000_0000 / c == size;
  }

  lemma Quotients(c: nat)
    requires 512 <= c <= 0x1_0000
    ensures (c - 1) % 0x1_0000_0000 == c - 1 && (c - 1) / c == 0
    ensures c % 0x1_0000_0000 == c && c / c == 1
  {
    Quotient(c - 1, 0, c);
    Quotient(c, 1, c);
  }

  lemma Quotient(x: nat, q: nat, c: nat)
    requires c > 0 && q * c <= x < q * c + c
    ensures x / c == q
  {
    var n := x / c;
    assert n * c <= x < n * c + c;
    if n > q {
      MulAtMost(q + 1, n, c);
      assert false;
    } else if n < q {
      MulAtMost(n + 1, q, c);
      assert false;
    }
  }

  lemma FirstModel(b: Bpb, name: seq<byte>, data: seq<byte>)
    requires ValidBpb(b) && MaxClusters(b) >= 3 && ClustersNeeded(b, |data|) == 1
    ensures WriteModel(Fs([], []), b, 224, name, data) == (Fs([[2]], [File(FormatName(name), 0, data)]), 0)
  {
    hide MaxClusters, FormatName, ClustersNeeded;
    var t := TakenTable([], MaxClusters(b));
    assert t[2] == 0;
    assert FirstFree(t, 3, 0) == [];
    assert FirstFree(t, 2, 1) == [2];
    assert Allocate([], MaxClusters(b), 1) == [2];
    hide Allocate;
    var f := File(FormatName(name), 0, data);
    assert [] + [[2]] == [[2]] && Replace([], 0, f) == [f];
    assert SlotFor([], 224, 0) == Some(0);
  }

  lemma FirstFound(name: seq<byte>, data: seq<byte>)
    requires 0 !in name && (name == [] || name[0] != 0xE5)
    ensures FindModel([File(FormatName(name), 0, data)], FormatName(name), 0) == Some(0)
  {
    FirstNameByte(name);
    hide FormatName;
  }

  lemma FirstOnDevice(total: nat, d: Disk, size: nat)
    requires 17 <= total < WORD - 2034 && TableSectors(total) < 0x1_0000 && |d| == total && size <= 1
    ensures var b := FormattedBpb(total);
            && ValidBpb(b) && CeilClusters(b, size) < 0x1_0000
            && (OnDevice(d, b, 2) <==> GeometryOf(total).clusters >= 1)
  {
    var b, g := FormattedBpb(total), GeometryOf(total);
    GeometryFits(total);
    OneNeeded(b, size);
    TableSizeBounds(total);
    FormattedLba(total);
    OneMoreCluster(DataSectors(total), g.sectorsPerCluster);
    hide TableSize, TableSectors, DataSectors, FirstGuess, DataLba, Doubled;
  }

  // ---- The loops that write the image ----

  /** Sectors `from` up to `to` all hold `x`. */
  function Fill(disk: Disk, from: nat, to: nat, x: Sector): (d: Disk)
    ensures |d| == |disk|
    ensures forall j :: 0 <= j < |disk| ==> d[j] == if from <= j < to then x else disk[j]
  {
    seq(|disk|, j requires 0 <= j < |disk| => if from <= j < to then x else disk[j])
  }

  lemma FillOne(disk: Disk, lba: nat, x: Sector)
    ensures WriteSectors(disk, lba, 1, x) == Fill(disk, lba, lba + 1, x)
  {
    assert SectorOf(x, 0) == x;
  }

  lemma FillZeros(disk: Disk, lba: nat, n: nat, buf: seq<byte>)
    requires 512 * n <= |buf| && forall i :: 0 <= i < |buf| ==> buf[i] == 0
    ensures WriteSectors(disk, lba, n, buf) == Fill(disk, lba, lba + n, Zeros(512))
  {
    var d := WriteSectors(disk, lba, n, buf);
    forall j | 0 <= j < |disk|
      ensures d[j] == Fill(disk, lba, lba + n, Zeros(512))[j]
    {
      if lba <= j < lba + n { assert SectorOf(buf, j - lba) == Zeros(512); }
    }
  }

  lemma FillMore(disk: Disk, a: nat, b: nat, c: nat, x: Sector)
    requires a <= b <= c
    ensures Fill(Fill(disk, a, b, x), b, c, x) == Fill(disk, a, c, x)
    ensures Fill(disk, a, a, x) == disk
  {
  }

  /** The first `copies` table copies: only the first starts with the table head. */
  function TablesInit(disk: Disk, reserved: nat, copies: nat, size: nat): (d: Disk)
    ensures |d| == |disk|
  {
    if copies == 0 then disk
    else
      var start := reserved + (copies - 1) * size;
      var head := if copies == 1 then TableHead() else Zeros(512);
      Fill(Fill(TablesInit(disk, reserved, copies - 1, size), start, start + 1, head), start + 1, start + size, Zeros(512))
  }

  /** `count` sectors from `from` on, one zero sector at a time: the inner loop of fat_init and the
      root directory loop of format_fat12. */
  method ClearSectors(dr: Driver, drive: int, from: nat, count: nat)
    requires dr.Valid()
    modifies dr.ide
    ensures dr.Valid()
    ensures dr.State() == WithDisk(old(dr.State()), drive, Fill(DiskOf(old(dr.State()), drive), from, from + count, Zeros(512)))
  {
    ghost var s0, disk := dr.State(), DiskOf(dr.State(), drive);
    DiskAfter(s0, drive, disk);
    FillMore(disk, from, from, from, Zeros(512));
    hide DiskOf, WithDisk, Fill;
    for i := 0 to count
      invariant dr.Valid()
      invariant dr.State() == WithDisk(s0, drive, Fill(disk, from, from + i, Zeros(512)))
    {
      ghost var now := Fill(disk, from, from + i, Zeros(512));
      DiskAfter(s0, drive, now);
      FillOne(now, from + i, Zeros(512));
      FillMore(disk, from, from + i, from + i + 1, Zeros(512));
      var _ := dr.Transfer(drive, 1, from + i, Zeros(512));
    }
  }

  /** fat_init; the table size arrives as 8 bits. */
  method FatInit(dr: Driver, drive: int, reserved: nat, numFats: nat, size8: nat)
    requires dr.Valid() && size8 < 0x100
    modifies dr.ide
    ensures dr.Valid()
    ensures dr.State() == WithDisk(old(dr.State()), drive, TablesInit(DiskOf(old(dr.State()), drive), reserved, numFats, size8))
  {
    ghost var s0, disk := dr.State(), DiskOf(dr.State(), drive);
    DiskAfter(s0, drive, disk);
    hide DiskOf, WithDisk, Fill;
    var fatSector := TableHead();
    for i := 0 to numFats
      invariant dr.Valid()
      invariant dr.State() == WithDisk(s0, drive, TablesInit(disk, reserved, i, size8))
      invariant fatSector == if i == 0 then TableHead() else Zeros(512)
    {
      var fatStart := reserved + i * size8;
      ghost var before := TablesInit(disk, reserved, i, size8);
      ghost var headed := Fill(before, fatStart, fatStart + 1, fatSector);
      DiskAfter(s0, drive, before);
      FillOne(before, fatStart, fatSector);
      var _ := dr.Transfer(drive, 1, fatStart, fatSector);
      fatSector := Zeros(512);
      FillNothing(headed, fatStart, size8);
      DiskAfter(s0, drive, headed);
      ClearSectors(dr, drive, fatStart + 1, if size8 > 1 then size8 - 1 else 0);
    }
  }

  lemma FillNothing(disk: Disk, start: nat, size: nat)
    ensures Fill(disk, start + 1, start + 1, Zeros(512)) == disk
    ensures size <= 1 ==> Fill(disk, start + 1, start + size, Zeros(512)) == disk
  {
  }

  /** The state format_fat12 leaves; a drive without sectors is not touched. */
  function FormatSys(s: Sys, drive: int, oem: seq<byte>): Sys
    requires |DiskOf(s, drive)| < WORD
  {
    var total := |DiskOf(s, drive)|;
    if total == 0 then s else WithDisk(s, drive, FormatDisk(total, oem)).(cache := None)
  }

  /** The writes of format_fat12 one after the other. */
  function FormatWrites(disk: Disk, oem: seq<byte>): (d: Disk)
    requires |disk| < WORD
    ensures |d| == |disk|
  {
    var g := GeometryOf(|disk|);
    var d1 := Fill(Fill(disk, 0, |disk|, Zeros(512)), 0, 1, BootSector(|disk|, g, oem));
    Fill(TablesInit(d1, 1, 2, g.fatSize % 0x100), 1 + 2 * g.fatSize, 15 + 2 * g.fatSize, Zeros(512))
  }

  lemma WritesGiveImage(disk: Disk, oem: seq<byte>)
    requires |disk| < WORD
    ensures FormatWrites(disk, oem) == FormatDisk(|disk|, oem)
  {
    var total, g := |disk|, GeometryOf(|disk|);
    var z := Zeros(512);
    var d1 := Fill(Fill(disk, 0, total, z), 0, 1, BootSector(total, g, oem));
    var size8 := g.fatSize % 0x100;
    var c1 := Fill(Fill(d1, 1, 2, TableHead()), 2, 1 + size8, z);
    var c2 := Fill(Fill(c1, 1 + size8, 2 + size8, z), 2 + size8, 1 + 2 * size8, z);
    assert TablesInit(d1, 1, 2, size8) == c2 by {
      assert TablesInit(d1, 1, 0, size8) == d1;
      assert TablesInit(d1, 1, 1, size8) == c1;
    }
    var d := FormatWrites(disk, oem);
    hide GeometryOf, BootSector, TablesInit;
    forall j | 0 <= j < total
      ensures d[j] == FormatDisk(total, oem)[j]
    {
      assert FormatDisk(total, oem)[j] == FormattedSector(total, oem, j);
    }
  }

  /** The whole device, at most 100 sectors at a time. */
  method ClearDevice(dr: Driver, drive: int, total: nat)
    requires dr.Valid()
    modifies dr.ide
    ensures dr.Valid()
    ensures dr.State() == WithDisk(old(dr.State()), drive, Fill(DiskOf(old(dr.State()), drive), 0, total, Zeros(512)))
  {
    ghost var s0, disk := dr.State(), DiskOf(dr.State(), drive);
    DiskAfter(s0, drive, disk);
    FillMore(disk, 0, 0, 0, Zeros(512));
    hide DiskOf, WithDisk, Fill;
    var zeroBuf := Zeros(512 * 100);
    var lba := 0;
    while lba < total
      invariant 0 <= lba <= total
      invariant dr.Valid()
      invariant dr.State() == WithDisk(s0, drive, Fill(disk, 0, lba, Zeros(512)))
    {
      var sectors := if total - lba > 100 then 100 else total - lba;
      ghost var now := Fill(disk, 0, lba, Zeros(512));
      DiskAfter(s0, drive, now);
      FillZeros(now, lba, sectors, zeroBuf);
      FillMore(disk, 0, lba, lba + sectors, Zeros(512));
      var _ := dr.Transfer(drive, sectors, lba, zeroBuf);
      lba := lba + sectors;
    }
  }

  /** format_fat12 */
  method FormatFat12(dr: Driver, drive: int, oem: seq<byte>)
    requires dr.Valid() && 0 <= drive < 4
    modifies dr, dr.ide
    ensures dr.Valid()
    ensures dr.State() == FormatSys(old(dr.State()), drive, oem)
  {
    ghost var s0, disk := dr.State(), DiskOf(dr.State(), drive);
    var total := if drive in dr.ide.media then |dr.ide.media[drive]| else 0;
    assert total == |disk|;
    if total == 0 { return; }
    WriteImage(dr, drive, total, oem);
    KeepsCache(s0, drive, FormatDisk(total, oem));
    hide DiskOf, WithDisk, FormatDisk;
    dr.bpbCached := false;
  }

  /** All sectors format_fat12 writes, in its order. */
  method WriteImage(dr: Driver, drive: int, total: nat, oem: seq<byte>)
    requires dr.Valid() && 1 <= total < WORD && total == |DiskOf(dr.State(), drive)|
    modifies dr.ide
    ensures dr.Valid()
    ensures dr.State() == WithDisk(old(dr.State()), drive, FormatDisk(total, oem))
  {
    hide *;
    ghost var s0, disk := dr.State(), DiskOf(dr.State(), drive);
    var g := ComputeGeometry(total);
    GeometryBounds(total);
    var boot := BootSector(total, g, oem);
    var size8, root := g.fatSize % 0x100, 1 + 2 * g.fatSize;
    ghost var d0, d1, d2 := ImageSteps(disk, oem, boot, size8, root);
    SameDevice(s0, drive, disk);
    ClearDevice(dr, drive, total);
    var _ := dr.Transfer(drive, 1, 0, boot);
    FatInit(dr, drive, 1, 2, size8);
    ClearSectors(dr, drive, root, 14);
  }

  lemma GeometryBounds(total: nat)
    ensures GeometryOf(total).sectorsPerCluster < 0x100 && GeometryOf(total).fatSize < 0x1_0000
  {
  }

  /** The disk after each of the writes of format_fat12. */
  lemma ImageSteps(disk: Disk, oem: seq<byte>, boot: Sector, size8: nat, root: nat)
    returns (d0: Disk, d1: Disk, d2: Disk)
    requires |disk| < WORD
    requires boot == BootSector(|disk|, GeometryOf(|disk|), oem)
    requires size8 == GeometryOf(|disk|).fatSize % 0x100 && root == 1 + 2 * GeometryOf(|disk|).fatSize
    ensures d0 == Fill(disk, 0, |disk|, Zeros(512)) && d1 == WriteSectors(d0, 0, 1, boot)
    ensures d2 == TablesInit(d1, 1, 2, size8) && FormatDisk(|disk|, oem) == Fill(d2, root, root + 14, Zeros(512))
  {
    d0 := Fill(disk, 0, |disk|, Zeros(512));
    d1 := WriteSectors(d0, 0, 1, boot);
    d2 := TablesInit(d1, 1, 2, size8);
    FillOne(d0, 0, boot);
    WritesGiveImage(disk, oem);
  }

  /** Changing one device again and again. */
  lemma SameDevice(s: Sys, drive: int, disk: Disk)
    requires disk == DiskOf(s, drive)
    ensures forall d: Disk {:trigger WithDisk(s, drive, d)} :: |d| == |disk| ==> DiskOf(WithDisk(s, drive, d), drive) == d
    ensures forall d: Disk, e: Disk {:trigger WithDisk(WithDisk(s, drive, d), drive, e)} ::
              |d| == |e| == |disk| ==> WithDisk(WithDisk(s, drive, d), drive, e) == WithDisk(s, drive, e)
  {
    forall d: Disk | |d| == |disk|
      ensures DiskOf(WithDisk(s, drive, d), drive) == d
    {
      DiskAfter(s, drive, d);
    }
    forall d: Disk, e: Disk | |d| == |e| == |disk|
      ensures WithDisk(WithDisk(s, drive, d), drive, e) == WithDisk(s, drive, e)
    {
      DiskAfter(s, drive, d);
    }
  }

  lemma KeepsCache(s: Sys, drive: int, disk: Disk)
    ensures WithDisk(s, drive, disk).cache == s.cache
  {
  }
}
