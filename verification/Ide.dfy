/** Block devices: what the sector transfers of the IDE driver do to the media behind them. */
module Ide {
  import opened Bytes

  const SECTOR: nat := 512
  /** The transfers use 28-bit sector addresses. */
  const LBA_LIMIT: nat := 0x1000_0000

  type Sector = s: seq<byte> | |s| == 512 witness Zeros(512)
  type Disk = seq<Sector>

  function ReadSectors(disk: Disk, lba: nat, n: nat): (buf: seq<byte>)
    requires lba + n <= |disk|
    ensures |buf| == 512 * n
    ensures forall i :: 0 <= i < 512 * n ==> buf[i] == disk[lba + i / 512][i % 512]
  {
    seq(512 * n, i requires 0 <= i < 512 * n => disk[lba + i / 512][i % 512])
  }

  /** The `k`-th sector of a buffer. */
  function SectorOf(buf: seq<byte>, k: nat): (s: Sector)
    requires 512 * (k + 1) <= |buf|
  {
    buf[512 * k..512 * (k + 1)]
  }

  function Written(disk: Disk, lba: nat, n: nat, buf: seq<byte>, j: nat): Sector
    requires 512 * n <= |buf| && j < |disk|
  {
    if lba <= j < lba + n then SectorOf(buf, j - lba) else disk[j]
  }

  /** Sectors past the end of the device are not there to be written. */
  function WriteSectors(disk: Disk, lba: nat, n: nat, buf: seq<byte>): (d: Disk)
    requires 512 * n <= |buf|
    ensures |d| == |disk|
    ensures forall j :: 0 <= j < |disk| ==>
              d[j] == if lba <= j < lba + n then SectorOf(buf, j - lba) else disk[j]
  {
    seq(|disk|, j requires 0 <= j < |disk| => Written(disk, lba, n, buf, j))
  }

  lemma ReadBack(disk: Disk, lba: nat, n: nat, buf: seq<byte>)
    requires 512 * n == |buf| && lba + n <= |disk|
    ensures ReadSectors(WriteSectors(disk, lba, n, buf), lba, n) == buf
  {
    var d := WriteSectors(disk, lba, n, buf);
    forall i | 0 <= i < 512 * n
      ensures ReadSectors(d, lba, n)[i] == buf[i]
    {
      assert d[lba + i / 512] == SectorOf(buf, i / 512);
    }
  }

  /** A transfer only sees the sectors it covers. */
  lemma ReadSame(disk: Disk, disk': Disk, lba: nat, n: nat)
    requires lba + n <= |disk| && lba + n <= |disk'|
    requires forall j :: lba <= j < lba + n ==> disk[j] == disk'[j]
    ensures ReadSectors(disk, lba, n) == ReadSectors(disk', lba, n)
  {
    var a, b := ReadSectors(disk, lba, n), ReadSectors(disk', lba, n);
    forall i | 0 <= i < 512 * n
      ensures a[i] == b[i]
    {
      assert disk[lba + i / 512] == disk'[lba + i / 512];
    }
  }

  lemma WriteOneMore(disk: Disk, lba: nat, n: nat, buf: seq<byte>)
    requires 512 * (n + 1) <= |buf|
    ensures WriteSectors(WriteSectors(disk, lba, n, buf), lba + n, 1, SectorOf(buf, n))
         == WriteSectors(disk, lba, n + 1, buf)
  {
    var one := SectorOf(buf, n);
    assert SectorOf(one, 0) == one;
  }

  /** The channel: media of the drives that are present (numbers 0 to 3). */
  class Controller {
    var media: map<int, Disk>

    ghost predicate Valid()
      reads this
    {
      forall d :: d in media ==> 0 <= d < 4 && |media[d]| <= LBA_LIMIT
    }

    constructor (media: map<int, Disk>)
      requires forall d :: d in media ==> 0 <= d < 4 && |media[d]| <= LBA_LIMIT
      ensures Valid() && this.media == media
    {
      this.media := media;
    }

    /** ide_read_sectors into `buf` at byte `at`; fails for an absent drive or past the end of the
        device, and then leaves the buffer in an unspecified state. */
    method Read(drive: int, numsects: nat, lba: nat, buf: array<byte>, at: nat) returns (err: nat)
      requires 1 <= numsects < 0x100 && at + 512 * numsects <= buf.Length
      modifies buf
      ensures err == 0 <==> drive in media && lba + numsects <= |media[drive]|
      ensures err == 0 ==>
                buf[..] == old(buf[..])[..at] + ReadSectors(media[drive], lba, numsects)
                           + old(buf[..])[at + 512 * numsects..]
    {
      if drive !in media { return 1; }
      ghost var before := buf[..];
      var i := 0;
      while i < numsects
        invariant 0 <= i <= numsects
        invariant lba + i <= |media[drive]| || i == 0
        invariant forall k :: 0 <= k < at || at + 512 * i <= k < buf.Length ==> buf[k] == before[k]
        invariant forall k :: 0 <= k < 512 * i ==> buf[at + k] == media[drive][lba + k / 512][k % 512]
      {
        if lba + i >= |media[drive]| { return 1; }
        var sector := media[drive][lba + i];
        var base := at + 512 * i;
        forall k | 0 <= k < 512 {
          buf[base + k] := sector[k];
        }
        forall k | 0 <= k < 512 * (i + 1)
          ensures buf[at + k] == media[drive][lba + k / 512][k % 512]
        {
          if k >= 512 * i {
            assert buf[base + (k - 512 * i)] == sector[k - 512 * i];
          }
        }
        i := i + 1;
      }
      assert buf[..] == before[..at] + ReadSectors(media[drive], lba, numsects) + before[at + 512 * numsects..];
      err := 0;
    }

    /** ide_write_sectors.  The driver does not look at the error bit after a write, so sectors past
        the end of the device are lost without an error. */
    method Write(drive: int, numsects: nat, lba: nat, buf: seq<byte>) returns (err: nat)
      requires Valid()
      requires 1 <= numsects < 0x100 && 512 * numsects <= |buf|
      modifies this
      ensures Valid()
      ensures err == 0 <==> drive in old(media) && lba < LBA_LIMIT
      ensures media == if drive in old(media)
                       then old(media)[drive := WriteSectors(old(media)[drive], lba, numsects, buf)]
                       else old(media)
    {
      if drive !in media { return 1; }
      ghost var disk := media[drive];
      assert media[drive := disk] == media;
      if lba >= 0x1000_0000 {
        assert WriteSectors(disk, lba, numsects, buf) == disk;
        return 2;
      }
      assert WriteSectors(disk, lba, 0, buf) == disk;
      var i := 0;
      while i < numsects
        invariant 0 <= i <= numsects
        invariant drive in media && |media[drive]| == |disk|
        invariant media == old(media)[drive := WriteSectors(disk, lba, i, buf)]
      {
        WriteOneMore(disk, lba, i, buf);
        var sector := SectorOf(buf, i);
        assert SectorOf(sector, 0) == sector;
        if lba + i < |media[drive]| {
          assert WriteSectors(media[drive], lba + i, 1, sector) == media[drive][lba + i := sector];
          media := media[drive := media[drive][lba + i := sector]];
        } else {
          assert WriteSectors(media[drive], lba + i, 1, sector) == media[drive];
          assert media == old(media)[drive := WriteSectors(disk, lba, i + 1, buf)];
        }
        i := i + 1;
      }
      err := 0;
    }
  }
}
