/** The boot sector byte by byte: what formatting chooses and leaves on the device, which boot sectors the
    driver accepts, and what it does without one. */
module Fat12Boot {
  import opened Bytes
  import opened Options
  import opened Ide
  import opened Fat12Volume
  import opened Fat12Driver
  import opened Fat12Format

  // ---- Formatting ----

  /** Sectors per cluster before the number of clusters is looked at. */
  function StartSize(total: nat): nat {
    if total <= 4084 then 1 else if total <= 8168 then 2 else if total <= 16336 then 4 else 8
  }

  /** The geometry chosen for a device. The table has the least number of sectors that, at 256 clusters each
      and with two copies, leave no more for data than they describe; the clusters are as many as fit behind
      15 other sectors; and their size is doubled just as long as there would be more than 4084 of them. */
  lemma ChosenGeometry(total: nat)
    requires 17 <= total <= 134_346_765
    ensures var g, start := GeometryOf(total), StartSize(total);
            var sectors := total - 15 - 2 * g.fatSize;
            && sectors >= 0 && g.sectorsPerCluster in {1, 2, 4, 8, 16, 32, 64, 128}
            && (g.fatSize - 1) * (256 * start + 2) < total - 15 <= g.fatSize * (256 * start + 2)
            && g.clusters * g.sectorsPerCluster <= sectors < g.clusters * g.sectorsPerCluster + g.sectorsPerCluster
            && (g.clusters <= 4084 || g.sectorsPerCluster == 128)
            && g.sectorsPerCluster >= start
            && (g.sectorsPerCluster > start ==> sectors >= 4085 * (g.sectorsPerCluster / 2))
  {
    TableFits(total);
    TableSizeBounds(total);
    var spc, sectors := StartSize(total), DataSectors(total);
    DoubledLeast(spc, sectors);
    hide TableSectors, Doubled, DataSectors;
    WholeBounds(sectors, GeometryOf(total).sectorsPerCluster);
  }

  /** Up to which size the number of table sectors fits 16 bits. */
  lemma TableFits(total: nat)
    requires 17 <= total < 0xFFFF_F80E
    ensures TableSectors(total) < 0x1_0000 <==> total <= 134_346_765
  {
    var n := total - 15 + (256 * FirstGuess(total) + 1);
    assert (total - 15) % 0x1_0000_0000 == total - 15 && n % 0x1_0000_0000 == n;
  }

  lemma WholeBounds(sectors: nat, spc: nat)
    requires spc > 0
    ensures WholeClusters(sectors, spc) * spc <= sectors < WholeClusters(sectors, spc) * spc + spc
  {
  }

  /** The doubling stops at the first size that will do. */
  lemma {:induction false} DoubledLeast(spc: nat, sectors: nat)
    requires IsClusterSize(spc)
    ensures Doubled(spc, sectors) > spc ==> sectors >= 4085 * (Doubled(spc, sectors) / 2)
    decreases 128 - spc
  {
    if WholeClusters(sectors, spc) > 4084 && spc < 128 {
      DoubledLeast(2 * spc, sectors);
      MulAtMost(4085, WholeClusters(sectors, spc), spc);
      WholeBounds(sectors, spc);
    }
  }

  /** The boot sector written by formatting. */
  lemma BootBytes(total: nat, oem: seq<byte>)
    requires total < 0x1_0000_0000
    ensures var s, g := BootSector(total, GeometryOf(total), oem), GeometryOf(total);
            && s[..3] == [0xEB, 0x3C, 0x90]
            && (oem == [] ==> s[3..11] == [0x6D, 0x6B, 0x66, 0x73, 0x2E, 0x66, 0x61, 0x74])
            && (oem != [] ==> forall i :: 0 <= i < 8 ==> s[3..11][i] == if i < |oem| then oem[i] else 0x20)
            && s[11..19] == [0x00, 0x02, g.sectorsPerCluster, 1, 0, 2, 224, 0]
            && (total <= 0xFFFF ==> s[19] as nat + 0x100 * s[20] as nat == total && s[32..36] == [0, 0, 0, 0])
            && (total > 0xFFFF ==>
                  && s[19] == 0 && s[20] == 0
                  && s[32] as nat + 0x100 * s[33] as nat + 0x1_0000 * s[34] as nat + 0x100_0000 * s[35] as nat == total)
            && s[21] == 0xF8 && s[22] as nat + 0x100 * s[23] as nat == g.fatSize
            && s[24..32] == [63, 0, 16, 0, 0, 0, 0, 0] && s[36..43] == [0x80, 0, 0x29, 0x78, 0x56, 0x34, 0x12]
            && s[43..54] == [0x4E, 0x4F, 0x20, 0x4E, 0x41, 0x4D, 0x45, 0x20, 0x20, 0x20, 0x20]
            && s[54..62] == [0x46, 0x41, 0x54, 0x31, 0x32, 0x20, 0x20, 0x20]
            && (forall i :: 62 <= i < 510 ==> s[i] == 0) && s[510..] == [0x55, 0xAA]
  {
    var g := GeometryOf(total);
    GeometryBounds(total);
    hide GeometryOf;
    var h, s := Header(total, g, oem), BootSector(total, g, oem);
    assert s[..62] == h;
    HeaderParts(total, g, oem);
    hide Header;
    assert s[..3] == h[..3] && s[3..11] == h[3..11] && s[11..19] == h[11..19] && s[24..32] == h[24..32];
    assert s[32..36] == h[32..36] && s[36..43] == h[36..43] && s[43..54] == h[43..54] && s[54..62] == h[54..62];
    assert s[510..] == [0x55, 0xAA];
    assert forall i :: 0 <= i < 62 ==> s[i] == h[i];
  }

  lemma HeaderParts(total: nat, g: Geometry, oem: seq<byte>)
    requires total < 0x1_0000_0000 && g.sectorsPerCluster < 0x100 && g.fatSize < 0x1_0000
    ensures var h := Header(total, g, oem);
            && h[..3] == [0xEB, 0x3C, 0x90]
            && (oem == [] ==> h[3..11] == [0x6D, 0x6B, 0x66, 0x73, 0x2E, 0x66, 0x61, 0x74])
            && (oem != [] ==> forall i :: 0 <= i < 8 ==> h[3..11][i] == if i < |oem| then oem[i] else 0x20)
            && h[11..19] == [0x00, 0x02, g.sectorsPerCluster, 1, 0, 2, 224, 0]
            && (total <= 0xFFFF ==> h[19] as nat + 0x100 * h[20] as nat == total && h[32..36] == [0, 0, 0, 0])
            && (total > 0xFFFF ==>
                  && h[19] == 0 && h[20] == 0
                  && h[32] as nat + 0x100 * h[33] as nat + 0x1_0000 * h[34] as nat + 0x100_0000 * h[35] as nat == total)
            && h[21] == 0xF8 && h[22] as nat + 0x100 * h[23] as nat == g.fatSize
            && h[24..32] == [63, 0, 16, 0, 0, 0, 0, 0] && h[36..43] == [0x80, 0, 0x29, 0x78, 0x56, 0x34, 0x12]
            && h[43..54] == [0x4E, 0x4F, 0x20, 0x4E, 0x41, 0x4D, 0x45, 0x20, 0x20, 0x20, 0x20]
            && h[54..62] == [0x46, 0x41, 0x54, 0x31, 0x32, 0x20, 0x20, 0x20]
  {
    var a: seq<byte>, p: seq<byte>, e: seq<byte> := [0xEB, 0x3C, 0x90], [0x00, 0x02, g.sectorsPerCluster, 1, 0, 2, 224, 0],
        [0x80, 0, 0x29, 0x78, 0x56, 0x34, 0x12];
    var t: seq<byte> := if total <= 0xFFFF then [total % 0x100, total / 0x100] else [0, 0];
    var m: seq<byte> := [0xF8, g.fatSize % 0x100, g.fatSize / 0x100, 63, 0, 16, 0, 0, 0, 0, 0];
    var w: seq<byte> := if total <= 0xFFFF then [0, 0, 0, 0]
                        else [total % 0x100, total / 0x100 % 0x100, total / 0x1_0000 % 0x100, total / 0x100_0000];
    assert Header(total, g, oem) == a + OemName(oem) + p + t + m + w + e + Labels();
    HeaderFields(a, OemName(oem), p, t, m, w, e, Labels());
    hide Header;
    assert m[3..] == [63, 0, 16, 0, 0, 0, 0, 0];
    if total > 0xFFFF { FourBytes(total); }
  }

  lemma HeaderFields(a: seq<byte>, o: seq<byte>, p: seq<byte>, t: seq<byte>, m: seq<byte>, w: seq<byte>, e: seq<byte>, l: seq<byte>)
    requires |a| == 3 && |o| == 8 && |p| == 8 && |t| == 2 && |m| == 11 && |w| == 4 && |e| == 7 && |l| == 19
    ensures var h := a + o + p + t + m + w + e + l;
            && h[..3] == a && h[3..11] == o && h[11..19] == p && h[19] == t[0] && h[20] == t[1]
            && h[21] == m[0] && h[22] == m[1] && h[23] == m[2] && h[24..32] == m[3..] && h[32..36] == w
            && h[32] == w[0] && h[33] == w[1] && h[34] == w[2] && h[35] == w[3]
            && h[36..43] == e && h[43..54] == l[..11] && h[54..62] == l[11..]
  {
  }

  lemma FourBytes(v: nat)
    requires v < 0x1_0000_0000
    ensures v % 0x100 + 0x100 * (v / 0x100 % 0x100) + 0x1_0000 * (v / 0x1_0000 % 0x100) + 0x100_0000 * (v / 0x100_0000) == v
  {
  }

  /** The device after formatting: behind the boot sector all bytes are zero but the first three of the first
      table copy, and those too when the table size is a multiple of 256. */
  lemma FormattedDevice(total: nat, oem: seq<byte>, j: nat, i: nat)
    requires 1 <= j < total < 0x1_0000_0000 && i < 512
    ensures FormatDisk(total, oem)[j][i]
            == if j == 1 && i < 3 && GeometryOf(total).fatSize % 0x100 != 0 then (if i == 0 then 0xF8 else 0xFF) else 0
    ensures FormatDisk(total, oem)[0] == BootSector(total, GeometryOf(total), oem)
  {
    assert FormatDisk(total, oem)[j] == FormattedSector(total, oem, j);
    assert FormatDisk(total, oem)[0] == FormattedSector(total, oem, 0);
    hide GeometryOf, BootSector;
  }

  // ---- Mounting ----

  /** The fields of the boot sector the driver goes by. */
  lemma BootFields(x: Sector)
    ensures var b := ParseBpb(x);
            && b.bytesPerSector == x[11] as nat + 0x100 * x[12] as nat && b.sectorsPerCluster == x[13]
            && b.reserved == x[14] as nat + 0x100 * x[15] as nat && b.numFats == x[16]
            && b.rootEntries == x[17] as nat + 0x100 * x[18] as nat
            && b.fatSize == x[22] as nat + 0x100 * x[23] as nat
  {
  }

  /** Which boot sectors are valid: 512 bytes per sector, up to 128 sectors per cluster, one or two tables, and
      no other of these fields zero. */
  lemma AcceptedFields(x: Sector)
    ensures ValidBpb(ParseBpb(x)) <==>
              && x[11] == 0 && x[12] == 2 && 1 <= x[13] <= 128 && (x[14] != 0 || x[15] != 0) && 1 <= x[16] <= 2
              && (x[17] != 0 || x[18] != 0) && (x[22] != 0 || x[23] != 0)
  {
  }

  /** Reading the BPB: a BPB cached for the drive is taken as it is; otherwise a signed sector 0 is read and
      cached, whether its fields are valid or not, and without one nothing changes. */
  lemma MountMeans(s: Sys, drive: int)
    ensures var disk := DiskOf(s, drive);
            var cached := s.cache.Some? && s.cache.value.0 == drive;
            var signed := |disk| > 0 && disk[0][510] == 0x55 && disk[0][511] == 0xAA;
            && (cached ==> Mounted(s, drive) == s && Lookup(s, drive) == Some(s.cache.value.1))
            && (!cached && signed ==> Mounted(s, drive) == s.(cache := Some((drive, ParseBpb(disk[0]))))
                                      && Lookup(s, drive) == Some(ParseBpb(disk[0])))
            && (!cached && !signed ==> Mounted(s, drive) == s && Lookup(s, drive) == None)
  {
  }

  /** A write returns -1 exactly when there is no valid BPB; then a read returns nothing, and no sector changes. */
  lemma Refused(s: Sys, drive: int, name: seq<byte>, data: seq<byte>, heapHasRoom: bool, stack: seq<byte>)
    requires Safe(s, drive) && |stack| == FAT_BUFFER && |data| < 0x1_0000_0000
    ensures var (s', r) := WriteFileSys(s, drive, name, data, stack);
            && (r == -1 <==> Lookup(s, drive) == None || !ValidBpb(Lookup(s, drive).value))
            && (r == -1 ==> s' == Mounted(s, drive) && s'.media == s.media
                            && ReadFileSys(s, drive, name, heapHasRoom, stack) == None)
  {
    hide AllocChain, AllocClusters, FindSlot, PutSlot, ClustersNeeded, DirEntry, Fat12Volume.WriteClusters;
  }

  /** Formatting a drive leaves the formatted image there and no BPB cached, of whatever drive it was. Neither
      formatting nor writing touches another drive. */
  lemma OneDrive(s: Sys, drive: int, other: int, oem: seq<byte>, name: seq<byte>, data: seq<byte>, stack: seq<byte>)
    requires |DiskOf(s, drive)| < 0x1_0000_0000
    requires Safe(s, drive) && |stack| == FAT_BUFFER && |data| < 0x1_0000_0000
    ensures var d, f, w := DiskOf(s, drive), FormatSys(s, drive, oem), WriteFileSys(s, drive, name, data, stack).0;
            && (d == [] ==> f == s)
            && (d != [] ==> DiskOf(f, drive) == FormatDisk(|d|, oem) && f.cache == None)
            && f.media.Keys == s.media.Keys == w.media.Keys
            && (other != drive ==> DiskOf(f, other) == DiskOf(s, other) == DiskOf(w, other))
  {
    hide FormatDisk, WriteFile, ParseBpb, ValidBpb;
  }
}
