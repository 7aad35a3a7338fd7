/** The on-disk format itself: where the bytes of a file lie on the device, from the fields of the boot
    sector, the packed table and the position in the file alone, and that the driver reads and writes there. */
module Fat12Layout {
  import opened Bytes
  import opened Options
  import opened Ide
  import opened FatTable
  import opened Fat12Codec
  import opened Fat12Volume
  import opened Fat12Chains
  import opened Fat12Format

  // ---- The format ----

  /** Byte `a` of the device. */
  function ByteAt(disk: Disk, a: nat): byte
    requires a < 512 * |disk|
  {
    disk[a / 512][a % 512]
  }

  /** Behind the reserved sectors lie the table copies, then the root directory in whole sectors, then the data. */
  function FirstDataSector(b: Bpb): nat {
    b.reserved + b.numFats * b.fatSize + (b.rootEntries * 32 + 511) / 512
  }

  /** Clusters are numbered from 2 on. */
  function FirstSectorOf(b: Bpb, c: nat): nat
    requires c >= 2
  {
    FirstDataSector(b) + (c - 2) * b.sectorsPerCluster
  }

  function TableByte(disk: Disk, b: Bpb, stack: seq<byte>, j: nat): byte
    requires b.reserved + b.fatSize <= |disk| && |stack| == 6144 && j < 6144
  {
    if j < 512 * b.fatSize then ByteAt(disk, 512 * b.reserved + j) else stack[j]
  }

  /** The table as the driver sees it: the first copy, and behind it what the stack held. */
  function Table(disk: Disk, b: Bpb, stack: seq<byte>): (t: seq<byte>)
    requires b.reserved + b.fatSize <= |disk| && |stack| == 6144
    ensures |t| == 6144
  {
    seq(6144, j requires 0 <= j < 6144 => TableByte(disk, b, stack, j))
  }

  /** Entry `c` of a packed table: one and a half bytes each. */
  function EntryOf(table: seq<byte>, c: nat): nat
    requires c + c / 2 + 1 < |table|
  {
    var lo, hi := table[c + c / 2] as nat, table[c + c / 2 + 1] as nat;
    if c % 2 == 1 then lo / 0x10 + 0x10 * hi else lo + 0x100 * (hi % 0x10)
  }

  /** A number that can be followed: no mark for the end of a file or a bad cluster's neighbourhood. */
  predicate Live(c: nat) {
    2 <= c < 0xFF8
  }

  /** The number `q` links behind cluster `first`; the chain stands still at its end. */
  function Link(table: seq<byte>, first: nat, q: nat): nat
    requires |table| == 6144
    decreases q
  {
    if q == 0 then first
    else
      var c := Link(table, first, q - 1);
      if Live(c) then EntryOf(table, c) else c
  }

  // ---- The driver's view is this one ----

  lemma TableIsBuffer(disk: Disk, b: Bpb, stack: seq<byte>)
    requires Usable(b) && FatReadable(disk, b) && |stack| == FAT_BUFFER
    ensures FatBuffer(disk, b, stack) == Table(disk, b, stack)
  {
    var f, t := FatBuffer(disk, b, stack), Table(disk, b, stack);
    forall j | 0 <= j < 6144
      ensures f[j] == t[j]
    {
      if j < 512 * b.fatSize { FlatByte(disk, b.reserved, j); }
    }
  }

  lemma FlatByte(disk: Disk, lba: nat, i: nat)
    requires 512 * lba + i < 512 * |disk|
    ensures lba + i / 512 < |disk| && ByteAt(disk, 512 * lba + i) == disk[lba + i / 512][i % 512]
  {
    assert (512 * lba + i) / 512 == lba + i / 512 && (512 * lba + i) % 512 == i % 512;
  }

  lemma EntryIsRead(table: seq<byte>, c: nat)
    requires |table| == 6144 && Live(c)
    ensures ReadEntry(table, c) == EntryOf(table, c)
  {
    EntryBytes(table, c);
  }

  lemma PlaceIsLba(b: Bpb, c: nat)
    requires c >= 2
    ensures ClusterLba(b, c) == FirstSectorOf(b, c)
  {
  }

  lemma {:induction false} LinkNext(table: seq<byte>, first: nat, q: nat)
    requires |table| == 6144 && Live(first)
    ensures Link(table, first, q + 1) == Link(table, EntryOf(table, first), q)
    decreases q
  {
    hide EntryOf;
    if q > 0 { LinkNext(table, first, q - 1); }
  }

  lemma {:induction false} LinkDead(table: seq<byte>, first: nat, q: nat)
    requires |table| == 6144 && !Live(first)
    ensures Link(table, first, q) == first
    decreases q
  {
    if q > 0 { LinkDead(table, first, q - 1); }
  }

  /** Positions in a file, cluster by cluster. */
  lemma InFirst(i: nat, size: nat)
    requires size > 0
    ensures i < size ==> i / size == 0 && i % size == i
    ensures i >= size ==> i / size >= 1 && (i - size) / size == i / size - 1 && (i - size) % size == i % size
  {
    var q, r := i / size, i % size;
    assert i == q * size + r;
    if i < size {
      if q >= 1 { MulAtMost(1, q, size); }
    } else {
      if q <= 0 { MulAtMost(q, 0, size); }
      assert i - size == (q - 1) * size + r;
      QuotientIs(i - size, size, q - 1, r);
    }
  }

  lemma QuotientIs(i: nat, size: nat, q: nat, r: nat)
    requires r < size && i == q * size + r
    ensures i / size == q && i % size == r
  {
    var q', r' := i / size, i % size;
    assert i == q' * size + r';
    if q < q' { MulAtMost(q + 1, q', size); }
    if q' < q { MulAtMost(q' + 1, q, size); }
  }

  // ---- Reading ----

  /** Byte `i` of a file that starts at cluster `first` is `x`. */
  ghost predicate FileByte(disk: Disk, b: Bpb, table: seq<byte>, first: nat, i: nat, x: byte)
    requires |table| == 6144 && b.sectorsPerCluster > 0
  {
    var size := 512 * b.sectorsPerCluster;
    ClusterByte(disk, b, Link(table, first, Turn(i, size)), Place(i, size), x)
  }

  /** Which cluster of a file position `i` is in, and where. */
  function Turn(i: nat, size: nat): nat
    requires size > 0
  {
    i / size
  }

  function Place(i: nat, size: nat): nat
    requires size > 0
  {
    i % size
  }

  /** Byte `o` of cluster `c` is `x`. */
  ghost predicate ClusterByte(disk: Disk, b: Bpb, c: nat, o: nat, x: byte) {
    Live(c) && 512 * FirstSectorOf(b, c) + o < 512 * |disk| && x == ByteAt(disk, 512 * FirstSectorOf(b, c) + o)
  }

  lemma {:induction false} ChainByte(disk: Disk, b: Bpb, table: seq<byte>, c: nat, size: nat, i: nat)
    requires Usable(b) && |table| == 6144 && ReadChain(disk, b, table, c, size).Some?
    requires i < |ReadChain(disk, b, table, c, size).value|
    ensures FileByte(disk, b, table, c, i, ReadChain(disk, b, table, c, size).value[i])
    decreases size
  {
    hide EntryOf, ReadEntry, FirstSectorOf, ClusterLba, ReadSectors, ByteAt;
    var cs := ClusterBytes(b);
    var n := Min(size, cs);
    InFirst(i, cs);
    PlaceIsLba(b, c);
    EntryIsRead(table, c);
    if i < n {
      SectorByte(disk, ClusterLba(b, c), b.sectorsPerCluster, i);
    } else {
      ChainByte(disk, b, table, ReadEntry(table, c), size - n, i - n);
      LinkNext(table, c, i / cs - 1);
    }
  }

  lemma SectorByte(disk: Disk, lba: nat, n: nat, i: nat)
    requires lba + n <= |disk| && i < 512 * n
    ensures 512 * lba + i < 512 * |disk| && ReadSectors(disk, lba, n)[i] == ByteAt(disk, 512 * lba + i)
  {
    FlatByte(disk, lba, i);
  }

  /** The chain ends behind `n` bytes in whole clusters of `size`. */
  ghost predicate EndsAt(table: seq<byte>, first: nat, n: nat, size: nat)
    requires |table| == 6144 && size > 0
  {
    n % size == 0 && !Live(Link(table, first, n / size))
  }

  lemma EndsOn(table: seq<byte>, c: nat, n: nat, size: nat)
    requires |table| == 6144 && size > 0 && Live(c) && n >= size && EndsAt(table, EntryOf(table, c), n - size, size)
    ensures EndsAt(table, c, n, size)
  {
    InFirst(n, size);
    LinkNext(table, c, n / size - 1);
    hide EntryOf, Live, Link;
  }

  lemma EndsHere(table: seq<byte>, c: nat, size: nat)
    requires |table| == 6144 && size > 0 && !Live(c)
    ensures EndsAt(table, c, 0, size)
  {
  }

  /** A read that comes out short stopped at the end of the chain, behind a whole cluster. */
  lemma {:induction false} ChainEnd(disk: Disk, b: Bpb, table: seq<byte>, c: nat, size: nat)
    requires Usable(b) && |table| == 6144 && ReadChain(disk, b, table, c, size).Some?
    ensures ClusterBytes(b) > 0
    ensures var n := |ReadChain(disk, b, table, c, size).value|; n < size ==> EndsAt(table, c, n, ClusterBytes(b))
    decreases size
  {
    var cs := ClusterBytes(b);
    hide EntryOf, ReadEntry, ReadSectors, ClusterLba, EndsAt;
    if size > 0 {
      if Live(c) {
        EntryIsRead(table, c);
        var m := Min(size, cs);
        var n := |ReadChain(disk, b, table, c, size).value|;
        ChainEnd(disk, b, table, ReadEntry(table, c), size - m);
        if n < size { EndsOn(table, c, n, cs); }
      } else {
        EndsHere(table, c, cs);
      }
    }
  }

  /** The 32 bytes of directory slot `k` begin here. */
  function SlotAddress(b: Bpb, k: nat): nat {
    512 * (b.reserved + b.numFats * b.fatSize) + 32 * k
  }

  lemma SlotByte(disk: Disk, b: Bpb, k: nat, j: nat)
    requires k < Slots(disk, b) && j < 32
    ensures SlotAddress(b, k) + 32 <= 512 * |disk| && Slot(disk, b, k)[j] == ByteAt(disk, SlotAddress(b, k) + j)
    ensures k < 16 * ((b.rootEntries * 32 + 511) / 512)
  {
    var lba, o := RootLba(b) + k / 16, k % 16 * 32;
    assert SlotAddress(b, k) == 512 * lba + o;
    assert lba < |disk|;
    FlatByte(disk, lba, o + j);
    assert (o + j) / 512 == 0;
  }

  /** The slot matches the name and is a file's. */
  ghost predicate SlotMatches(disk: Disk, b: Bpb, k: nat, name: seq<byte>)
    requires SlotAddress(b, k) + 32 <= 512 * |disk| && |name| == 11
  {
    var at := SlotAddress(b, k);
    && ByteAt(disk, at) != 0xE5
    && ByteAt(disk, at + 11) / 0x10 % 2 == 0 && ByteAt(disk, at + 11) / 0x08 % 2 == 0
    && forall j :: 0 <= j < 11 ==> ByteAt(disk, at + j) == name[j]
  }

  /** What the directory says of the file in slot `k`. */
  function FirstClusterOf(disk: Disk, b: Bpb, k: nat): nat
    requires SlotAddress(b, k) + 32 <= 512 * |disk|
  {
    var at := SlotAddress(b, k);
    ByteAt(disk, at + 26) as nat + 0x100 * ByteAt(disk, at + 27) as nat
  }

  function SizeOf(disk: Disk, b: Bpb, k: nat): nat
    requires SlotAddress(b, k) + 32 <= 512 * |disk|
  {
    var at := SlotAddress(b, k);
    ByteAt(disk, at + 28) as nat + 0x100 * ByteAt(disk, at + 29) as nat
      + 0x1_0000 * ByteAt(disk, at + 30) as nat + 0x100_0000 * ByteAt(disk, at + 31) as nat
  }

  lemma SlotFields(disk: Disk, b: Bpb, k: nat)
    requires k < Slots(disk, b)
    ensures SlotAddress(b, k) + 32 <= 512 * |disk|
    ensures U16(Slot(disk, b, k), 26) == FirstClusterOf(disk, b, k) && U32(Slot(disk, b, k), 28) == SizeOf(disk, b, k)
  {
    SlotBytes(disk, b, k);
    hide ByteAt, SlotAddress, Slot, Slots;
  }

  lemma SlotBytes(disk: Disk, b: Bpb, k: nat)
    requires k < Slots(disk, b)
    ensures SlotAddress(b, k) + 32 <= 512 * |disk|
    ensures forall j :: 0 <= j < 32 ==> Slot(disk, b, k)[j] == ByteAt(disk, SlotAddress(b, k) + j)
  {
    SlotByte(disk, b, k, 0);
    forall j | 0 <= j < 32
      ensures Slot(disk, b, k)[j] == ByteAt(disk, SlotAddress(b, k) + j)
    {
      SlotByte(disk, b, k, j);
    }
  }

  lemma SlotMatch(disk: Disk, b: Bpb, k: nat, name: seq<byte>)
    requires k < Slots(disk, b) && |name| == 11
    ensures SlotAddress(b, k) + 32 <= 512 * |disk|
    ensures SlotMatches(disk, b, k, name) <==> Slot(disk, b, k)[0] != 0xE5 && IsFile(Slot(disk, b, k)) && Slot(disk, b, k)[..11] == name
    ensures Slot(disk, b, k)[0] == ByteAt(disk, SlotAddress(b, k))
  {
    SlotBytes(disk, b, k);
    var e, at := Slot(disk, b, k), SlotAddress(b, k);
    hide ByteAt, SlotAddress, Slot, Slots;
    assert e[0] == ByteAt(disk, at + 0);
    if e[..11] == name {
      forall j | 0 <= j < 11
        ensures ByteAt(disk, at + j) == name[j]
      {
        assert e[j] == e[..11][j];
      }
    }
  }

  /** The scan goes on behind slot `l`: it is no match and does not mark the end of the directory. */
  ghost predicate Passed(disk: Disk, b: Bpb, l: nat, name: seq<byte>)
    requires |name| == 11
  {
    SlotAddress(b, l) + 32 <= 512 * |disk| && !SlotMatches(disk, b, l, name) && ByteAt(disk, SlotAddress(b, l)) != 0x00
  }

  lemma {:induction false} FoundFirst(disk: Disk, b: Bpb, name: seq<byte>, from: nat, k: nat)
    requires |name| == 11 && FindFile(disk, b, name, from) == Some(k)
    ensures SlotAddress(b, k) + 32 <= 512 * |disk| && SlotMatches(disk, b, k, name)
    ensures forall l :: from <= l < k ==> Passed(disk, b, l, name)
    decreases Slots(disk, b) - from
  {
    SlotMatch(disk, b, from, name);
    hide Slot, Slots, SlotMatches, ByteAt, SlotAddress, IsFile;
    if from < k { FoundFirst(disk, b, name, from + 1, k); }
  }

  /** When a read returns bytes: the first matching slot of the root directory gives the first cluster and
      the size; byte i is byte i % 512 of a sector of the cluster the table leads to for position i; the rest
      of the buffer is zero, and it is left over only when the chain ends early. */
  lemma FileBytes(disk: Disk, b: Bpb, name: seq<byte>, heapHasRoom: bool, stack: seq<byte>) returns (k: nat)
    requires Usable(b) && |stack| == FAT_BUFFER && ReadFile(disk, b, name, heapHasRoom, stack).Some?
    ensures k < 16 * ((b.rootEntries * 32 + 511) / 512) && SlotAddress(b, k) + 32 <= 512 * |disk|
    ensures SlotMatches(disk, b, k, FormatName(name))
    ensures forall l :: 0 <= l < k ==> Passed(disk, b, l, FormatName(name))
    ensures b.reserved + b.fatSize <= |disk|
    ensures var (buffer, n) := ReadFile(disk, b, name, heapHasRoom, stack).value;
            var table, first, size := Table(disk, b, stack), FirstClusterOf(disk, b, k), 512 * b.sectorsPerCluster;
            && |buffer| == SizeOf(disk, b, k) && n <= |buffer|
            && (forall i :: 0 <= i < n ==> FileByte(disk, b, table, first, i, buffer[i]))
            && (forall i :: n <= i < |buffer| ==> buffer[i] == 0)
            && (n < |buffer| ==> EndsAt(table, first, n, size))
  {
    var fname := FormatName(name);
    k := FindFile(disk, b, fname, 0).value;
    FoundFirst(disk, b, fname, 0, k);
    SlotByte(disk, b, k, 0);
    SlotFields(disk, b, k);
    TableIsBuffer(disk, b, stack);
    hide FindFile, Slot, Slots, FormatName, SlotMatches, ByteAt, SlotAddress, FirstClusterOf, SizeOf, Link, FileByte, ReadChain, EndsAt;
    var table, first, size := Table(disk, b, stack), FirstClusterOf(disk, b, k), SizeOf(disk, b, k);
    hide Table, U16, U32;
    var bytes := ReadChain(disk, b, table, first, size).value;
    ChainEnd(disk, b, table, first, size);
    forall i | 0 <= i < |bytes|
      ensures FileByte(disk, b, table, first, i, bytes[i])
    {
      ChainByte(disk, b, table, first, size, i);
    }
  }

  // ---- Writing ----

  /** The write of `n` bytes from cluster `first` on puts cluster number `q` of the chain on sector `j`. */
  predicate Covers(b: Bpb, table: seq<byte>, first: nat, n: nat, q: nat, j: nat)
    requires |table| == 6144
  {
    && q * (512 * b.sectorsPerCluster) < n && Live(Link(table, first, q))
    && FirstSectorOf(b, Link(table, first, q)) <= j < FirstSectorOf(b, Link(table, first, q)) + b.sectorsPerCluster
  }

  /** ... and no later cluster of the chain. */
  ghost predicate CoversLast(b: Bpb, table: seq<byte>, first: nat, n: nat, q: nat, j: nat)
    requires |table| == 6144
  {
    Covers(b, table, first, n, q, j) && forall l: nat :: l > q ==> !Covers(b, table, first, n, l, j)
  }

  /** Byte `i` of sector `j` as part of cluster number `q`: the data there, zero behind its end. */
  function DataByte(b: Bpb, table: seq<byte>, first: nat, data: seq<byte>, q: nat, j: nat, i: nat): byte
    requires |table| == 6144 && Covers(b, table, first, |data|, q, j)
  {
    var at := q * (512 * b.sectorsPerCluster) + (j - FirstSectorOf(b, Link(table, first, q))) * 512 + i;
    if at < |data| then data[at] else 0
  }

  lemma CoversNext(b: Bpb, table: seq<byte>, first: nat, n: nat, q: nat, j: nat)
    requires Usable(b) && |table| == 6144 && Live(first) && n > ClusterBytes(b)
    ensures Covers(b, table, first, n, q + 1, j) <==> Covers(b, table, EntryOf(table, first), n - ClusterBytes(b), q, j)
  {
    LinkNext(table, first, q);
    hide EntryOf, FirstSectorOf, Link;
    var cs := 512 * b.sectorsPerCluster;
    assert (q + 1) * cs == q * cs + cs;
  }

  lemma CoversNone(b: Bpb, table: seq<byte>, first: nat, n: nat, q: nat, j: nat)
    requires Usable(b) && |table| == 6144 && (n == 0 || !Live(first) || (n <= ClusterBytes(b) && q > 0))
    ensures !Covers(b, table, first, n, q, j)
  {
    if !Live(first) { LinkDead(table, first, q); }
    hide FirstSectorOf, Link;
    if q > 0 { MulAtMost(1, q, 512 * b.sectorsPerCluster); }
  }

  /** A sector no cluster of the chain lies on keeps its contents. */
  lemma {:induction false} ChainElsewhere(disk: Disk, b: Bpb, table: seq<byte>, c: nat, data: seq<byte>, j: nat)
    requires Usable(b) && |table| == 6144 && j < |disk|
    requires forall q: nat :: !Covers(b, table, c, |data|, q, j)
    ensures WriteChain(disk, b, table, c, data)[j] == disk[j]
    decreases |data|
  {
    if data != [] && Live(c) {
      EntryIsRead(table, c);
      PlaceIsLba(b, c);
      hide EntryOf, ReadEntry, FirstSectorOf, ClusterLba;
      var n := Min(|data|, ClusterBytes(b));
      var d := WriteSectors(disk, ClusterLba(b, c), b.sectorsPerCluster, ClusterImage(b, data));
      assert !Covers(b, table, c, |data|, 0, j);
      assert d[j] == disk[j];
      if n < |data| {
        forall q: nat
          ensures !Covers(b, table, ReadEntry(table, c), |data[n..]|, q, j)
        {
          CoversNext(b, table, c, |data|, q, j);
        }
        ChainElsewhere(d, b, table, ReadEntry(table, c), data[n..], j);
      }
    }
  }

  /** A sector of the chain holds the data of the last cluster put there. */
  lemma {:induction false} ChainThere(disk: Disk, b: Bpb, table: seq<byte>, c: nat, data: seq<byte>, q: nat, j: nat, i: nat)
    requires Usable(b) && |table| == 6144 && j < |disk| && i < 512 && CoversLast(b, table, c, |data|, q, j)
    ensures WriteChain(disk, b, table, c, data)[j][i] == DataByte(b, table, c, data, q, j, i)
    decreases |data|
  {
    if data == [] || !Live(c) {
      CoversNone(b, table, c, |data|, q, j);
      assert false;
    } else {
      EntryIsRead(table, c);
      var n := Min(|data|, ClusterBytes(b));
      var d := WriteSectors(disk, ClusterLba(b, c), b.sectorsPerCluster, ClusterImage(b, data));
      hide EntryOf, ReadEntry, FirstSectorOf, ClusterLba, Covers, DataByte;
      if n == |data| {
        if q > 0 {
          CoversNone(b, table, c, |data|, q, j);
          assert false;
        }
        ImageThere(disk, b, table, c, data, j, i);
      } else {
        var next, rest := ReadEntry(table, c), data[n..];
        if q == 0 {
          forall l: nat
            ensures !Covers(b, table, next, |rest|, l, j)
          {
            CoversNext(b, table, c, |data|, l, j);
          }
          ChainElsewhere(d, b, table, next, rest, j);
          ImageThere(disk, b, table, c, data, j, i);
        } else {
          CoversNext(b, table, c, |data|, q - 1, j);
          forall l: nat | l > q - 1
            ensures !Covers(b, table, next, |rest|, l, j)
          {
            CoversNext(b, table, c, |data|, l, j);
          }
          ChainThere(d, b, table, next, rest, q - 1, j, i);
          DataShift(b, table, c, data, q - 1, j, i);
        }
      }
    }
  }

  lemma ImageThere(disk: Disk, b: Bpb, table: seq<byte>, c: nat, data: seq<byte>, j: nat, i: nat)
    requires Usable(b) && |table| == 6144 && j < |disk| && i < 512 && Live(c) && Covers(b, table, c, |data|, 0, j)
    ensures WriteSectors(disk, ClusterLba(b, c), b.sectorsPerCluster, ClusterImage(b, data))[j][i]
            == DataByte(b, table, c, data, 0, j, i)
  {
    PlaceIsLba(b, c);
    hide FirstSectorOf, ClusterLba;
    var s := j - FirstSectorOf(b, c);
    assert Link(table, c, 0) == c;
    var image := ClusterImage(b, data);
    assert 512 * s + i < 512 * b.sectorsPerCluster;
    assert SectorOf(image, s)[i] == image[512 * s + i];
  }

  lemma DataShift(b: Bpb, table: seq<byte>, c: nat, data: seq<byte>, q: nat, j: nat, i: nat)
    requires Usable(b) && |table| == 6144 && Live(c) && |data| > ClusterBytes(b)
    requires Covers(b, table, c, |data|, q + 1, j) && Covers(b, table, EntryOf(table, c), |data| - ClusterBytes(b), q, j)
    ensures DataByte(b, table, EntryOf(table, c), data[ClusterBytes(b)..], q, j, i) == DataByte(b, table, c, data, q + 1, j, i)
  {
    LinkNext(table, c, q);
    hide EntryOf, FirstSectorOf, Link;
    var cs := 512 * b.sectorsPerCluster;
    assert (q + 1) * cs == q * cs + cs;
  }

  lemma {:induction false} FatsElsewhere(disk: Disk, copies: nat, size: nat, fat: seq<byte>, start: nat, j: nat)
    requires 512 * size <= |fat| && j < |disk| && j >= start + copies * size
    ensures WriteFats(disk, copies, size, fat, start)[j] == disk[j]
    decreases copies
  {
    if copies > 0 {
      assert copies * size == (copies - 1) * size + size;
      FatsElsewhere(disk, copies - 1, size, fat, start, j);
    }
  }

  lemma DataBehindTable(b: Bpb, j: nat)
    requires j >= FirstDataSector(b)
    ensures j >= b.reserved + b.numFats * b.fatSize
  {
  }

  /** What the chain writer changes in the data area: sector `j` holds the bytes of the data whose place in
      the file leads there, and any other sector keeps its contents. */
  lemma ClusterSectors(disk: Disk, b: Bpb, first: nat, data: seq<byte>, stack: seq<byte>, j: nat)
    requires Usable(b) && |stack| == FAT_BUFFER && b.reserved + b.fatSize <= |disk| && FirstDataSector(b) <= j < |disk|
    ensures var d, table := WriteClusters(disk, b, first, data, stack), Table(disk, b, stack);
            && ((forall q: nat :: !Covers(b, table, first, |data|, q, j)) ==> d[j] == disk[j])
            && (forall q: nat, i: nat :: i < 512 && CoversLast(b, table, first, |data|, q, j) ==>
                                           d[j][i] == DataByte(b, table, first, data, q, j, i))
  {
    var table := Table(disk, b, stack);
    TableIsBuffer(disk, b, stack);
    DataBehindTable(b, j);
    var d := WriteChain(disk, b, table, first, data);
    FatsElsewhere(d, b.numFats, b.fatSize, ClosedFat(b, table, first, data), b.reserved, j);
    hide Table, Link, FirstDataSector, ByteAt, WriteChain, ClosedFat, WriteFats, Covers, CoversLast, DataByte;
    if forall q: nat :: !Covers(b, table, first, |data|, q, j) {
      ChainElsewhere(disk, b, table, first, data, j);
    }
    forall q: nat, i: nat | i < 512 && CoversLast(b, table, first, |data|, q, j)
      ensures Covers(b, table, first, |data|, q, j)
      ensures d[j][i] == DataByte(b, table, first, data, q, j, i)
    {
      CoveredLast(b, table, first, |data|, q, j);
      ChainThere(disk, b, table, first, data, q, j, i);
    }
  }

  lemma CoveredLast(b: Bpb, table: seq<byte>, first: nat, n: nat, q: nat, j: nat)
    requires |table| == 6144 && CoversLast(b, table, first, n, q, j)
    ensures Covers(b, table, first, n, q, j)
  {
  }

  // ---- The allocator ----

  /** The free clusters from `c` up to `limit`, in order: those whose entry is zero. */
  function FreeFrom(table: seq<byte>, c: nat, limit: nat): seq<nat>
    requires 3 * limit <= 2 * |table|
    decreases limit - c
  {
    if c >= limit then []
    else if EntryOf(table, c) == 0 then [c] + FreeFrom(table, c + 1, limit)
    else FreeFrom(table, c + 1, limit)
  }

  lemma {:induction false} FirstFreeAre(fat: seq<byte>, t: seq<nat>, limit: nat, c: nat, count: nat)
    requires 3 * limit <= 2 * |fat| && 2 <= c && |t| == limit
    requires forall k :: 2 <= k < limit ==> t[k] == EntryOf(fat, k)
    ensures var all := FreeFrom(fat, c, limit);
            FirstFree(t, c, count) == if |all| < count then all else all[..count]
    decreases limit - c
  {
    hide EntryOf;
    if c < limit && count > 0 {
      FirstFreeAre(fat, t, limit, c + 1, if EntryOf(fat, c) == 0 then count - 1 else count);
    }
  }

  lemma TableEntries(fat: seq<byte>, limit: nat)
    requires 3 * limit <= 2 * |fat|
    ensures limit <= |Entries(fat)|
    ensures forall k :: 2 <= k < limit ==> Entries(fat)[..limit][k] == EntryOf(fat, k)
  {
    forall k | 2 <= k < limit
      ensures Entries(fat)[k] == EntryOf(fat, k)
    {
      EntryBytes(fat, k);
    }
  }

  /** The allocator takes the lowest free clusters there are, out of the numbers from 2 up to the end of the
      table, or up to 4084 in a table that is larger; with fewer than it needs it takes none. */
  lemma AllocatedClusters(disk: Disk, b: Bpb, count: nat, stack: seq<byte>)
    requires Usable(b) && |stack| == 6144
    ensures AllocChain(disk, b, count)
            == if b.reserved + b.fatSize > |disk| then []
               else
                 var limit := if b.fatSize == 12 then 4085 else 1024 * b.fatSize / 3;
                 var all := FreeFrom(Table(disk, b, stack)[..512 * b.fatSize], 2, limit);
                 if |all| < count then [] else all[..count]
  {
    if b.reserved + b.fatSize <= |disk| {
      var limit := if b.fatSize == 12 then 4085 else 1024 * b.fatSize / 3;
      Limits(b.fatSize);
      var fat := FatOf(disk, b);
      TableIsBuffer(disk, b, stack);
      assert Table(disk, b, stack)[..512 * b.fatSize] == fat;
      hide FatOf, Table, FatBuffer;
      TableEntries(fat, limit);
      FirstFreeAre(fat, Entries(fat)[..limit], limit, 2, count);
      hide FreeFrom, FirstFree, Entries, Capacity;
    }
  }

  lemma Limits(f: nat)
    requires 1 <= f <= 12
    ensures var limit := if f == 12 then 4085 else 1024 * f / 3;
            && 3 <= limit && 3 * limit <= 2 * (512 * f)
            && (forall b: Bpb :: b.fatSize == f ==> MaxClusters(b) == limit)
  {
  }

  // ---- A formatted device ----

  /** The clusters of a freshly formatted device follow one another from the sector behind the directory, and
      those the geometry counts are the ones that lie on it as a whole. */
  lemma FormattedClusters(total: nat, disk: Disk, c: nat)
    requires 17 <= total < 0xFFFF_F80E && TableSectors(total) < 0x1_0000 && |disk| == total && c >= 2
    ensures var b, g := FormattedBpb(total), GeometryOf(total);
            && FirstSectorOf(b, 2) == 15 + 2 * g.fatSize
            && FirstSectorOf(b, c + 1) == FirstSectorOf(b, c) + g.sectorsPerCluster
            && (c < g.clusters + 2 <==> FirstSectorOf(b, c) + g.sectorsPerCluster <= total)
            && (c < g.clusters + 2 <==> OnDevice(disk, b, c))
  {
    var b, g := FormattedBpb(total), GeometryOf(total);
    TableSizeBounds(total);
    GeometryFits(total);
    assert FirstDataSector(b) == 15 + 2 * g.fatSize;
    PlaceIsLba(b, c);
    OneMoreCluster(DataSectors(total), g.sectorsPerCluster);
    hide TableSize, TableSectors, DataSectors, FirstGuess, Doubled, WholeClusters, FirstDataSector, ClusterLba;
    assert (c + 1 - 2) * g.sectorsPerCluster == (c - 2) * g.sectorsPerCluster + g.sectorsPerCluster;
    CountFits(c - 1, g.clusters, g.sectorsPerCluster, total - 15 - 2 * g.fatSize);
    assert (c - 1) * g.sectorsPerCluster == (c - 2) * g.sectorsPerCluster + g.sectorsPerCluster;
  }

  lemma CountFits(n: nat, k: nat, spc: nat, sectors: nat)
    requires k * spc <= sectors < k * spc + spc
    ensures n <= k <==> n * spc <= sectors
  {
    if n <= k { MulAtMost(n, k, spc); } else { MulAtMost(k + 1, n, spc); }
  }
}
