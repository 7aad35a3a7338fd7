/** The FAT32 allocator: 32-bit entries of which only the low 28 bits are the cluster number; the
    top four bits are reserved and have to survive every write. */
module Fat32Alloc {
  import opened Bytes
  import opened FatTable

  const MASK_28: nat := 0x1000_0000
  const EOC_MARK: nat := 0x0FFF_FFF8

  function Raw(fat: seq<byte>, cluster: nat): (v: nat)
    requires 4 * cluster + 3 < |fat|
    ensures v < 0x1_0000_0000
  {
    U32(fat, 4 * cluster)
  }

  /** fat32_read_entry */
  function ReadEntry(fat: seq<byte>, cluster: nat): (v: nat)
    requires 4 * cluster + 3 < |fat|
    ensures v < MASK_28
  {
    if cluster < 2 then EOC_MARK else Raw(fat, cluster) % MASK_28
  }

  /** fat32_write_entry */
  function WriteEntry(fat: seq<byte>, cluster: nat, value: nat): (r: seq<byte>)
    requires 4 * cluster + 3 < |fat|
    ensures |r| == |fat|
  {
    if cluster < 2 then fat
    else PutU32(fat, 4 * cluster, Raw(fat, cluster) / MASK_28 * MASK_28 + value % MASK_28)
  }

  function Entries(fat: seq<byte>): (t: seq<nat>)
    ensures |t| == |fat| / 4
    ensures forall c :: 0 <= c < |t| ==> t[c] == ReadEntry(fat, c)
  {
    seq(|fat| / 4, c requires 0 <= c < |fat| / 4 => ReadEntry(fat, c))
  }

  /** The reserved top four bits of every entry. */
  function Reserved(fat: seq<byte>): (r: seq<nat>)
    ensures |r| == |fat| / 4
    ensures forall c :: 0 <= c < |r| ==> r[c] == Raw(fat, c) / MASK_28
  {
    seq(|fat| / 4, c requires 0 <= c < |fat| / 4 => Raw(fat, c) / MASK_28)
  }

  /** Entry `c` is made of the low 28 bits of the little-endian word at byte 4c; the top four are reserved. */
  lemma EntryBytes(fat: seq<byte>, c: nat)
    requires 2 <= c < |fat| / 4
    ensures Entries(fat)[c] == fat[4 * c] as nat + 0x100 * fat[4 * c + 1] as nat + 0x1_0000 * fat[4 * c + 2] as nat
                               + 0x100_0000 * (fat[4 * c + 3] as nat % 0x10)
    ensures Reserved(fat)[c] == fat[4 * c + 3] as nat / 0x10
  {
    hide U16;
    RawBytes(fat, c);
    var low := fat[4 * c] as nat + 0x100 * fat[4 * c + 1] as nat + 0x1_0000 * fat[4 * c + 2] as nat;
    HighByte(low, fat[4 * c + 3] as nat);
  }

  lemma HighByte(low: nat, high: nat)
    requires low < 0x100_0000 && high < 0x100
    ensures (low + 0x100_0000 * high) % MASK_28 == low + 0x100_0000 * (high % 0x10)
    ensures (low + 0x100_0000 * high) / MASK_28 == high / 0x10
  {
  }

  lemma WriteKeeps(fat: seq<byte>, c: nat, v: nat, d: nat)
    requires 2 <= c < |fat| / 4 && d < |fat| / 4
    requires v < MASK_28
    ensures ReadEntry(WriteEntry(fat, c, v), d) == if d == c then v else ReadEntry(fat, d)
    ensures Raw(WriteEntry(fat, c, v), d) / MASK_28 == Raw(fat, d) / MASK_28
  {
    assert d != c ==> 4 * d + 3 < 4 * c || 4 * c + 3 < 4 * d;
  }

  lemma WriteIsUpdate(fat: seq<byte>, c: nat, v: nat)
    requires 2 <= c < |fat| / 4
    requires v < MASK_28
    ensures Entries(WriteEntry(fat, c, v)) == Entries(fat)[c := v]
    ensures Reserved(WriteEntry(fat, c, v)) == Reserved(fat)
  {
    var r := WriteEntry(fat, c, v);
    forall d | 0 <= d < |fat| / 4
      ensures Entries(r)[d] == Entries(fat)[c := v][d]
      ensures Reserved(r)[d] == Reserved(fat)[d]
    {
      WriteKeeps(fat, c, v, d);
    }
  }

  lemma RawBytes(fat: seq<byte>, cluster: nat)
    requires 4 * cluster + 3 < |fat|
    ensures var i := 4 * cluster;
            Raw(fat, cluster) ==
            fat[i] as int + 0x100 * fat[i + 1] as int + 0x1_0000 * fat[i + 2] as int + 0x100_0000 * fat[i + 3] as int
  {
  }

  method PutEntry(fat: array<byte>, cluster: nat, value: nat)
    requires 4 * cluster + 3 < fat.Length
    modifies fat
    ensures fat[..] == WriteEntry(old(fat[..]), cluster, value)
    ensures 2 <= cluster && value < MASK_28 ==> Entries(fat[..]) == Entries(old(fat[..]))[cluster := value]
    ensures value < MASK_28 ==> Reserved(fat[..]) == Reserved(old(fat[..]))
  {
    if cluster < 2 { return; }
    hide U16, Reserved, Entries;
    if value < MASK_28 { WriteIsUpdate(fat[..], cluster, value); }
    var i := 4 * cluster;
    var raw := fat[i] as int + 0x100 * fat[i + 1] as int + 0x1_0000 * fat[i + 2] as int + 0x100_0000 * fat[i + 3] as int;
    assert raw == Raw(fat[..], cluster) by { RawBytes(fat[..], cluster); }
    var word := raw / 0x1000_0000 * 0x1000_0000 + value % 0x1000_0000;
    StoreWord(fat, i, word);
  }

  /** A little-endian 32-bit store. */
  method StoreWord(fat: array<byte>, i: nat, word: nat)
    requires i + 3 < fat.Length && word < 0x1_0000_0000
    modifies fat
    ensures fat[..] == PutU32(old(fat[..]), i, word)
  {
    PutU32Bytes(fat[..], i, word);
    fat[i] := word % 0x100;
    fat[i + 1] := word / 0x100 % 0x100;
    fat[i + 2] := word / 0x1_0000 % 0x100;
    fat[i + 3] := word / 0x100_0000;
  }

  method GetEntry(fat: array<byte>, cluster: nat) returns (v: nat)
    requires 4 * cluster + 3 < fat.Length
    ensures v == ReadEntry(fat[..], cluster)
  {
    if cluster < 2 { return 0x0FFF_FFF8; }
    var i := 4 * cluster;
    v := fat[i] as int + 0x100 * fat[i + 1] as int + 0x1_0000 * fat[i + 2] as int + 0x100_0000 * fat[i + 3] as int;
    v := v % 0x1000_0000;
  }

  /** One cluster found: hang it behind the previous one, if there is one. */
  method Take(fat: array<byte>, prev: nat, cluster: nat,
              ghost t: seq<nat>, ghost limit: nat, ghost chain: seq<nat>, ghost count: nat)
    requires limit <= 0x0FFF_FFF6 && limit <= fat.Length / 4 && |chain| < count && cluster < limit
    requires Progress(t, Entries(fat[..]), limit, chain, cluster, count)
    requires Entries(fat[..])[cluster] == 0
    requires prev == if chain == [] then 0 else chain[|chain| - 1]
    modifies fat
    ensures Progress(t, Entries(fat[..]), limit, chain + [cluster], cluster + 1, count)
    ensures Reserved(fat[..]) == Reserved(old(fat[..]))
  {
    ghost var t' := Entries(fat[..]);
    if prev != 0 {
      WriteIsUpdate(fat[..], prev, cluster);
      PutEntry(fat, prev, cluster);
    }
    ProgressTake(t, t', Entries(fat[..]), limit, chain, cluster, count);
  }

  /** fat32_alloc_clusters on the table held in memory. */
  method LinkFree(fat: array<byte>, count: nat) returns (first: nat)
    modifies fat
    ensures Reserved(fat[..]) == Reserved(old(fat[..]))
    ensures !(3 <= fat.Length / 4 <= 0x0FFF_FFF6) ==> first == 0 && fat[..] == old(fat[..])
    ensures 3 <= fat.Length / 4 <= 0x0FFF_FFF6 ==>
              AllocOutcome(Entries(old(fat[..])), Entries(fat[..]), fat.Length / 4, count, 0x0FFF_FFF8, first)
  {
    hide Progress, FirstFree, WriteEntry;
    ghost var start := fat[..];
    ghost var t := Entries(start);
    ghost var chain: seq<nat> := [];
    var maxClusters := fat.Length / 4;
    if maxClusters < 3 || maxClusters > 0x0FFF_FFF6 { return 0; }
    first := 0;
    var prev := 0;
    var taken := 0;
    var cluster := 2;
    ProgressStart(t, maxClusters, count);
    while cluster < maxClusters && taken < count
      invariant Progress(t, Entries(fat[..]), maxClusters, chain, cluster, count)
      invariant Reserved(fat[..]) == Reserved(start)
      invariant taken == |chain| <= count
      invariant chain == [] ==> first == 0 && prev == 0
      invariant chain != [] ==> first == chain[0] && prev == chain[|chain| - 1]
    {
      ghost var t' := Entries(fat[..]);
      var e := GetEntry(fat, cluster);
      assert e == t'[cluster];
      if e == 0 {
        Take(fat, prev, cluster, t, maxClusters, chain, count);
        if first == 0 {
          first := cluster;
        }
        chain := chain + [cluster];
        prev := cluster;
        taken := taken + 1;
      } else {
        ProgressSkip(t, t', maxClusters, chain, cluster, count);
      }
      cluster := cluster + 1;
    }
    ProgressEnd(t, Entries(fat[..]), maxClusters, chain, cluster, count, EOC_MARK);
    if taken == count && prev != 0 {
      PutEntry(fat, prev, 0x0FFF_FFF8);
    } else {
      first := 0;
    }
  }
}
