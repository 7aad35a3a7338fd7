/** Writing along a cluster chain and reading along it again. */
module Fat12Chains {
  import opened Bytes
  import opened Options
  import opened Ide
  import opened FatTable
  import opened Fat12Codec
  import opened Fat12Volume

  /** The table leads from the first cluster of `ch` through all of it to an end mark. */
  predicate Follows(fat: seq<byte>, ch: seq<nat>)
    requires |fat| == FAT_BUFFER
  {
    && ch != [] && InChain(ch[0])
    && if |ch| == 1 then ReadEntry(fat, ch[0]) == EOC_MARK
       else ReadEntry(fat, ch[0]) == ch[1] && Follows(fat, ch[1..])
  }

  predicate OnDevice(disk: Disk, b: Bpb, c: nat)
    requires 2 <= c
  {
    ClusterLba(b, c) + b.sectorsPerCluster <= |disk|
  }

  predicate Within(b: Bpb, c: nat, j: nat)
    requires 2 <= c
  {
    ClusterLba(b, c) <= j < ClusterLba(b, c) + b.sectorsPerCluster
  }

  ghost predicate Clusters(ch: seq<nat>) {
    forall i :: 0 <= i < |ch| ==> 2 <= ch[i]
  }

  ghost predicate Avoids(b: Bpb, ch: seq<nat>, j: nat)
    requires Clusters(ch)
  {
    forall i :: 0 <= i < |ch| ==> !Within(b, ch[i], j)
  }

  /** Only sectors of the clusters in `ch` differ. */
  ghost predicate SameExcept(disk: Disk, d: Disk, b: Bpb, ch: seq<nat>)
    requires Clusters(ch)
  {
    && |d| == |disk|
    && forall j :: 0 <= j < |disk| && Avoids(b, ch, j) ==> d[j] == disk[j]
  }

  /** The sectors of cluster `c` that exist hold `image`. */
  ghost predicate Holds(d: Disk, b: Bpb, c: nat, image: seq<byte>)
    requires 2 <= c && |image| == ClusterBytes(b)
  {
    forall s :: 0 <= s < b.sectorsPerCluster && ClusterLba(b, c) + s < |d| ==>
                  d[ClusterLba(b, c) + s] == SectorOf(image, s)
  }

  function Rest(b: Bpb, data: seq<byte>): (r: seq<byte>)
  {
    data[Min(|data|, ClusterBytes(b))..]
  }

  /** The clusters of `ch` hold `data`, one cluster image after the other. */
  ghost predicate Stored(d: Disk, b: Bpb, ch: seq<nat>, data: seq<byte>)
    requires Clusters(ch)
    decreases |ch|
  {
    ch == [] || data == [] ||
    (Holds(d, b, ch[0], ClusterImage(b, data)) && Stored(d, b, ch[1..], Rest(b, data)))
  }

  /** `n` bytes fit into the clusters of `ch`. */
  predicate Enough(b: Bpb, ch: seq<nat>, n: nat) {
    n == 0 || (ch != [] && Enough(b, ch[1..], n - Min(n, ClusterBytes(b))))
  }

  /** `n` bytes reach into the last cluster of `ch`. */
  predicate Used(b: Bpb, ch: seq<nat>, n: nat) {
    ch == [] || (n > 0 && Used(b, ch[1..], n - Min(n, ClusterBytes(b))))
  }

  // ---- Clusters do not overlap ----

  lemma ClustersApart(b: Bpb, c: nat, d: nat)
    requires 2 <= c < d
    ensures ClusterLba(b, c) + b.sectorsPerCluster <= ClusterLba(b, d)
  {
    hide DataLba;
    MulAtMost(c - 1, d - 2, b.sectorsPerCluster);
    assert (c - 1) * b.sectorsPerCluster == (c - 2) * b.sectorsPerCluster + b.sectorsPerCluster;
  }

  lemma OtherCluster(b: Bpb, c: nat, ch: seq<nat>, j: nat)
    requires 2 <= c && Clusters(ch) && c !in ch && Within(b, c, j)
    ensures Avoids(b, ch, j)
  {
    forall i | 0 <= i < |ch|
      ensures !Within(b, ch[i], j)
    {
      if ch[i] < c { ClustersApart(b, ch[i], c); } else { ClustersApart(b, c, ch[i]); }
    }
  }

  lemma HoldsStill(disk: Disk, d: Disk, b: Bpb, c: nat, image: seq<byte>, ch: seq<nat>)
    requires 2 <= c && Clusters(ch) && c !in ch && |image| == ClusterBytes(b)
    requires SameExcept(disk, d, b, ch) && Holds(disk, b, c, image)
    ensures Holds(d, b, c, image)
  {
    forall s | 0 <= s < b.sectorsPerCluster && ClusterLba(b, c) + s < |d|
      ensures d[ClusterLba(b, c) + s] == SectorOf(image, s)
    {
      OtherCluster(b, c, ch, ClusterLba(b, c) + s);
    }
  }

  // ---- Writing ----

  lemma OneCluster(disk: Disk, b: Bpb, c: nat, image: seq<byte>)
    requires 2 <= c && |image| == ClusterBytes(b)
    ensures var d := WriteSectors(disk, ClusterLba(b, c), b.sectorsPerCluster, image);
            SameExcept(disk, d, b, [c]) && Holds(d, b, c, image)
  {
    var d := WriteSectors(disk, ClusterLba(b, c), b.sectorsPerCluster, image);
    forall j | 0 <= j < |disk| && Avoids(b, [c], j)
      ensures d[j] == disk[j]
    {
      assert !Within(b, [c][0], j);
    }
  }

  lemma SameExceptTrans(x: Disk, y: Disk, z: Disk, b: Bpb, c: nat, ch: seq<nat>)
    requires 2 <= c && Clusters(ch)
    requires SameExcept(x, y, b, [c]) && SameExcept(y, z, b, ch)
    ensures Clusters([c] + ch) && SameExcept(x, z, b, [c] + ch)
  {
    var all := [c] + ch;
    forall j | 0 <= j < |x| && Avoids(b, all, j)
      ensures z[j] == x[j]
    {
      assert !Within(b, all[0], j);
      forall i | 0 <= i < |ch| ensures !Within(b, ch[i], j) {
        assert !Within(b, all[i + 1], j);
      }
      assert Avoids(b, [c], j) && Avoids(b, ch, j);
    }
  }

  lemma IncreasingTail(ch: seq<nat>)
    requires ch != [] && Increasing(ch)
    ensures Increasing(ch[1..]) && ch[0] !in ch[1..] && ch == [ch[0]] + ch[1..]
  {
  }

  /** Writing `data` along a chain stores it there and touches no other cluster. */
  lemma {:induction false} WriteChainStores(disk: Disk, b: Bpb, fat: seq<byte>, ch: seq<nat>, data: seq<byte>)
    requires Usable(b) && |fat| == FAT_BUFFER && Clusters(ch)
    requires Follows(fat, ch) && Increasing(ch)
    ensures var d := WriteChain(disk, b, fat, ch[0], data);
            SameExcept(disk, d, b, ch) && Stored(d, b, ch, data)
    decreases |ch|
  {
    var c, tail := ch[0], ch[1..];
    var d := WriteChain(disk, b, fat, c, data);
    if data != [] {
      var image := ClusterImage(b, data);
      var rest := Rest(b, data);
      var d1 := WriteSectors(disk, ClusterLba(b, c), b.sectorsPerCluster, image);
      OneCluster(disk, b, c, image);
      IncreasingTail(ch);
      if rest == [] || |ch| == 1 {
        ChainStops(d1, b, fat, c, rest);
        assert d == d1;
        SameMore(disk, d, b, c, ch);
        assert Stored(d, b, tail, rest);
      } else {
        WriteChainStores(d1, b, fat, tail, rest);
        SameExceptTrans(disk, d1, d, b, c, tail);
        HoldsStill(d1, d, b, c, image, tail);
      }
    }
  }

  lemma ChainStops(disk: Disk, b: Bpb, fat: seq<byte>, c: nat, rest: seq<byte>)
    requires Usable(b) && |fat| == FAT_BUFFER && InChain(c)
    requires rest == [] || ReadEntry(fat, c) == EOC_MARK
    ensures WriteChain(disk, b, fat, ReadEntry(fat, c), rest) == disk
  {
  }

  lemma SameMore(disk: Disk, d: Disk, b: Bpb, c: nat, ch: seq<nat>)
    requires 2 <= c && Clusters(ch) && c in ch && SameExcept(disk, d, b, [c])
    ensures SameExcept(disk, d, b, ch)
  {
    forall j | 0 <= j < |disk| && Avoids(b, ch, j)
      ensures d[j] == disk[j]
    {
      assert Avoids(b, [c], j);
    }
  }

  /** The table written back is the one that was read: its last cluster is marked already. */
  lemma {:induction false} ClosedIsSame(b: Bpb, fat: seq<byte>, ch: seq<nat>, data: seq<byte>)
    requires Usable(b) && |fat| == FAT_BUFFER && Follows(fat, ch)
    requires data == [] || Used(b, ch, |data|)
    ensures ClosedFat(b, fat, ch[0], data) == fat
    decreases |ch|
  {
    if data != [] {
      var rest := Rest(b, data);
      if |ch| == 1 {
        MarkAgain(fat, ch[0]);
      } else {
        assert rest != [] && Used(b, ch[1..], |rest|);
        ClosedIsSame(b, fat, ch[1..], rest);
      }
    }
  }

  /** Writing the value an entry already has changes nothing. */
  lemma MarkAgain(fat: seq<byte>, c: nat)
    requires 2 <= c < Capacity(|fat|)
    ensures WriteEntry(fat, c, ReadEntry(fat, c)) == fat
  {
    var word := U16(fat, Offset(c));
    PutSame(fat, Offset(c));
    var v := ReadEntry(fat, c);
    if c % 2 == 1 {
      assert v * 0x10 % 0x1_0000 + word % 0x10 == word;
    } else {
      assert word / 0x1000 * 0x1000 + v % 0x1000 == word;
    }
  }

  lemma PutSame(s: seq<byte>, i: nat)
    requires i + 1 < |s|
    ensures PutU16(s, i, U16(s, i)) == s
  {
  }

  // ---- Reading ----

  lemma ClusterContents(d: Disk, b: Bpb, c: nat, image: seq<byte>)
    requires 2 <= c && OnDevice(d, b, c) && |image| == ClusterBytes(b)
    requires Holds(d, b, c, image)
    ensures ReadSectors(d, ClusterLba(b, c), b.sectorsPerCluster) == image
  {
    var r := ReadSectors(d, ClusterLba(b, c), b.sectorsPerCluster);
    forall i | 0 <= i < |image|
      ensures r[i] == image[i]
    {
      assert d[ClusterLba(b, c) + i / 512] == SectorOf(image, i / 512);
    }
  }

  /** Reading a stored chain whose clusters are all on the device gives the data back. */
  lemma {:induction false} ReadStored(d: Disk, b: Bpb, fat: seq<byte>, ch: seq<nat>, data: seq<byte>)
    requires Usable(b) && |fat| == FAT_BUFFER && Clusters(ch) && Follows(fat, ch)
    requires Stored(d, b, ch, data) && Enough(b, ch, |data|)
    requires forall i :: 0 <= i < |ch| ==> OnDevice(d, b, ch[i])
    ensures ReadChain(d, b, fat, ch[0], |data|) == Some(data)
    decreases |ch|
  {
    if data != [] {
      var n := Min(|data|, ClusterBytes(b));
      var rest := Rest(b, data);
      var c := ch[0];
      ClusterContents(d, b, c, ClusterImage(b, data));
      assert ClusterImage(b, data)[..n] == data[..n];
      assert data[..n] + rest == data;
      if |ch| == 1 {
        assert rest == [];
      } else {
        assert forall i :: 0 <= i < |ch[1..]| ==> ch[1..][i] == ch[i + 1];
        ReadStored(d, b, fat, ch[1..], rest);
      }
    }
  }

  /** A chain that is too short yields too few bytes, whatever its clusters hold. */
  lemma {:induction false} ReadShort(d: Disk, b: Bpb, fat: seq<byte>, ch: seq<nat>, n: nat)
    requires Usable(b) && |fat| == FAT_BUFFER && Clusters(ch) && Follows(fat, ch)
    requires !Enough(b, ch, n)
    ensures var r := ReadChain(d, b, fat, ch[0], n);
            r.Some? ==> |r.value| < n
    decreases |ch|
  {
    var m := Min(n, ClusterBytes(b));
    if |ch| == 1 {
      assert ReadChain(d, b, fat, EOC_MARK, n - m) == Some([]);
    } else {
      ReadShort(d, b, fat, ch[1..], n - m);
    }
  }

  /** If the last cluster is needed but lies past the end of the device, reading fails. */
  lemma {:induction false} ReadPastEnd(d: Disk, b: Bpb, fat: seq<byte>, ch: seq<nat>, n: nat)
    requires Usable(b) && |fat| == FAT_BUFFER && Clusters(ch) && Follows(fat, ch)
    requires Used(b, ch, n) && !OnDevice(d, b, ch[|ch| - 1])
    ensures ReadChain(d, b, fat, ch[0], n) == None
    decreases |ch|
  {
    if |ch| > 1 {
      ReadPastEnd(d, b, fat, ch[1..], n - Min(n, ClusterBytes(b)));
    }
  }

  /** In an increasing chain the last cluster decides whether all are on the device. */
  lemma LastDecides(d: Disk, b: Bpb, ch: seq<nat>)
    requires ch != [] && Clusters(ch) && Increasing(ch)
    ensures (forall i :: 0 <= i < |ch| ==> OnDevice(d, b, ch[i])) <==> OnDevice(d, b, ch[|ch| - 1])
  {
    forall i | 0 <= i < |ch| && OnDevice(d, b, ch[|ch| - 1])
      ensures OnDevice(d, b, ch[i])
    {
      if i < |ch| - 1 { ClustersApart(b, ch[i], ch[|ch| - 1]); }
    }
  }

  // ---- How many clusters ----

  lemma {:induction false} EnoughCount(b: Bpb, ch: seq<nat>, n: nat)
    requires ValidBpb(b)
    ensures Enough(b, ch, n) <==> n <= |ch| * ClusterBytes(b)
    decreases |ch|
  {
    var cs := ClusterBytes(b);
    if ch != [] {
      assert |ch| * cs == |ch[1..]| * cs + cs;
      EnoughCount(b, ch[1..], n - Min(n, cs));
    }
  }

  lemma {:induction false} UsedCount(b: Bpb, ch: seq<nat>, n: nat)
    requires ValidBpb(b) && ch != []
    ensures Used(b, ch, n) <==> (|ch| - 1) * ClusterBytes(b) < n
    decreases |ch|
  {
    var cs := ClusterBytes(b);
    if |ch| > 1 {
      assert (|ch| - 1) * cs == (|ch[1..]| - 1) * cs + cs;
      UsedCount(b, ch[1..], n - Min(n, cs));
    }
  }

  /** The number of clusters `size` bytes occupy, without the 16-bit truncation. */
  function CeilClusters(b: Bpb, size: nat): nat
    requires ValidBpb(b)
  {
    (size + ClusterBytes(b) - 1) / ClusterBytes(b)
  }

  lemma CeilBounds(b: Bpb, size: nat)
    requires ValidBpb(b)
    ensures size <= CeilClusters(b, size) * ClusterBytes(b) < size + ClusterBytes(b)
  {
    var cs := ClusterBytes(b);
    var q := (size + cs - 1) / cs;
    assert size + cs - 1 == q * cs + (size + cs - 1) % cs;
  }

  /** The clusters requested are always all used, and for sizes that kmalloc accepts they suffice
      exactly when the 16-bit count did not overflow. */
  lemma NeededFits(b: Bpb, ch: seq<nat>, size: nat)
    requires ValidBpb(b) && 1 <= size < 0x1_0000_0000 && |ch| == ClustersNeeded(b, size)
    ensures Used(b, ch, size)
    ensures size <= 0x1000_0000 ==> (Enough(b, ch, size) <==> CeilClusters(b, size) < 0x1_0000)
  {
    CeilBounds(b, size);
    EnoughCount(b, ch, size);
    UsedCount(b, ch, size);
    CountBounds(b, size);
    CountArithmetic(size, ClusterBytes(b), CeilClusters(b, size), |ch|);
  }

  lemma CountArithmetic(size: int, cs: int, q: int, k: int)
    requires size <= q * cs < size + cs && 1 <= k <= q
    ensures (k - 1) * cs < size
    ensures size <= k * cs <==> k == q
  {
    MulAtMost(k - 1, q - 1, cs);
    assert (q - 1) * cs == q * cs - cs;
    if k < q {
      MulAtMost(k, q - 1, cs);
    }
  }

  /** The count never exceeds what the size needs; where the 32-bit rounding wraps it is 1. */
  lemma CountBounds(b: Bpb, size: nat)
    requires ValidBpb(b) && 1 <= size < 0x1_0000_0000
    ensures var k, q := ClustersNeeded(b, size), CeilClusters(b, size);
            1 <= k <= q && (size <= 0x1000_0000 ==> (k == q <==> q < 0x1_0000))
  {
    var cs, q := ClusterBytes(b), CeilClusters(b, size);
    CeilBounds(b, size);
    PositiveCeil(q, cs, size);
    NeededCount(size + cs - 1, cs, q);
    CutTo16(q);
  }

  lemma PositiveCeil(q: int, cs: int, size: int)
    requires 0 < size <= q * cs && cs > 0
    ensures q >= 1
  {
    if q <= 0 { MulAtMost(q, 0, cs); }
  }

  /** The 32-bit rounding of a size: exact, or 0 where the sum wraps around. */
  lemma NeededCount(x: nat, cs: nat, q: nat)
    requires 0 < cs < 0x2_0000 && cs <= x < 0xFFFF_FFFF + cs && q == x / cs
    ensures x % 0x1_0000_0000 / cs == if x < 0x1_0000_0000 then q else 0
  {
    if x < 0x1_0000_0000 {
      ModSmall(x);
    } else {
      ModSmall(x - 0x1_0000_0000);
      SmallQuotient(x - 0x1_0000_0000, cs);
    }
  }

  lemma ModSmall(x: nat)
    requires x < 0x1_0000_0000
    ensures x % 0x1_0000_0000 == x && (x + 0x1_0000_0000) % 0x1_0000_0000 == x
  {
  }

  lemma SmallQuotient(x: nat, cs: nat)
    requires x < cs
    ensures x / cs == 0
  {
    var q := x / cs;
    assert x == cs * q + x % cs;
    if q > 0 { MulAtMost(1, q, cs); }
  }

  lemma CutTo16(q: nat)
    requires q >= 1
    ensures var k := if q % 0x1_0000 == 0 then 1 else q % 0x1_0000;
            1 <= k <= q && (k == q <==> q < 0x1_0000)
  {
  }
}
