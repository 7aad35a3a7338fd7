/** The FAT16 allocator: the same search and linking over whole 16-bit entries. */
module Fat16Alloc {
  import opened Bytes
  import opened FatTable

  const EOC_MARK: nat := 0xFFFF

  /** fat16_read_entry */
  function ReadEntry(fat: seq<byte>, cluster: nat): (v: nat)
    requires 2 * cluster + 1 < |fat|
    ensures v < 0x1_0000
  {
    if cluster < 2 then EOC_MARK else U16(fat, 2 * cluster)
  }

  /** fat16_write_entry */
  function WriteEntry(fat: seq<byte>, cluster: nat, value: nat): (r: seq<byte>)
    requires 2 * cluster + 1 < |fat|
    requires value < 0x1_0000
    ensures |r| == |fat|
  {
    if cluster < 2 then fat else PutU16(fat, 2 * cluster, value)
  }

  function Entries(fat: seq<byte>): (t: seq<nat>)
    ensures |t| == |fat| / 2
    ensures forall c :: 0 <= c < |t| ==> t[c] == ReadEntry(fat, c)
  {
    seq(|fat| / 2, c requires 0 <= c < |fat| / 2 => ReadEntry(fat, c))
  }

  /** Entry `c` is the little-endian word at byte 2c. */
  lemma EntryBytes(fat: seq<byte>, c: nat)
    requires 2 <= c < |fat| / 2
    ensures Entries(fat)[c] == fat[2 * c] as nat + 0x100 * fat[2 * c + 1] as nat
  {
  }

  lemma WriteIsUpdate(fat: seq<byte>, c: nat, v: nat)
    requires 2 <= c < |fat| / 2
    requires v < 0x1_0000
    ensures Entries(WriteEntry(fat, c, v)) == Entries(fat)[c := v]
  {
    var r := WriteEntry(fat, c, v);
    forall d | 0 <= d < |fat| / 2
      ensures Entries(r)[d] == Entries(fat)[c := v][d]
    {
      assert d != c ==> 2 * d + 1 < 2 * c || 2 * c + 1 < 2 * d;
    }
  }

  method PutEntry(fat: array<byte>, cluster: nat, value: nat)
    requires 2 * cluster + 1 < fat.Length
    requires value < 0x1_0000
    modifies fat
    ensures fat[..] == WriteEntry(old(fat[..]), cluster, value)
  {
    if cluster < 2 { return; }
    fat[2 * cluster] := value % 0x100;
    fat[2 * cluster + 1] := value / 0x100;
  }

  /** One cluster found: hang it behind the previous one, if there is one. */
  method Take(fat: array<byte>, prev: nat, cluster: nat,
              ghost t: seq<nat>, ghost limit: nat, ghost chain: seq<nat>, ghost count: nat)
    requires limit <= 0xFFFF && limit <= fat.Length / 2 && |chain| < count && cluster < limit
    requires Progress(t, Entries(fat[..]), limit, chain, cluster, count)
    requires Entries(fat[..])[cluster] == 0
    requires prev == if chain == [] then 0 else chain[|chain| - 1]
    modifies fat
    ensures Progress(t, Entries(fat[..]), limit, chain + [cluster], cluster + 1, count)
  {
    ghost var t' := Entries(fat[..]);
    if prev != 0 {
      WriteIsUpdate(fat[..], prev, cluster);
      PutEntry(fat, prev, cluster);
    }
    ProgressTake(t, t', Entries(fat[..]), limit, chain, cluster, count);
  }

  /** The search limit fat16_alloc_clusters computes from the table's size. */
  function Limit(fatBytes: nat): nat {
    var entries := fatBytes / 2 % 0x1_0000;
    if entries > 65525 then 65525 else entries
  }

  /** The search goes to the end of the table, or up to cluster 65524; a table of 128 KiB is not searched. */
  lemma LimitIs(fatBytes: nat)
    ensures fatBytes < 0x2_0000 ==> 2 * Limit(fatBytes) <= fatBytes && Limit(fatBytes) <= 65525
    ensures fatBytes < 0x2_0000 && Limit(fatBytes) != 65525 ==> fatBytes < 2 * Limit(fatBytes) + 2
    ensures Limit(0x2_0000) == 0
  {
  }

  /** fat16_alloc_clusters on the table held in memory. */
  method LinkFree(fat: array<byte>, count: nat) returns (first: nat)
    modifies fat
    ensures Limit(fat.Length) < 3 ==> first == 0 && fat[..] == old(fat[..])
    ensures Limit(fat.Length) >= 3 ==>
              AllocOutcome(Entries(old(fat[..])), Entries(fat[..]), Limit(fat.Length), count, 0xFFFF, first)
  {
    hide Progress, FirstFree, WriteEntry, IsChain, SameOutside;
    ghost var t := Entries(fat[..]);
    ghost var chain: seq<nat> := [];
    var maxClusters := fat.Length / 2 % 0x1_0000;
    if maxClusters > 65525 { maxClusters := 65525; }
    if maxClusters < 3 { return 0; }
    first := 0;
    var prev := 0;
    var taken := 0;
    var cluster := 2;
    ProgressStart(t, maxClusters, count);
    while cluster < maxClusters && taken < count
      invariant Progress(t, Entries(fat[..]), maxClusters, chain, cluster, count)
      invariant taken == |chain| <= count
      invariant chain == [] ==> first == 0 && prev == 0
      invariant chain != [] ==> first == chain[0] && prev == chain[|chain| - 1]
    {
      ghost var t' := Entries(fat[..]);
      var e := fat[2 * cluster] as int + 0x100 * fat[2 * cluster + 1] as int;
      assert e == t'[cluster];
      if e == 0 {
        Take(fat, prev, cluster, t, maxClusters, chain, count);
        if first == 0 {
          first := cluster;
        }
        chain := chain + [cluster];
        prev := cluster;
        taken := taken + 1;
      } else {
        ProgressSkip(t, t', maxClusters, chain, cluster, count);
      }
      cluster := cluster + 1;
    }
    ProgressEnd(t, Entries(fat[..]), maxClusters, chain, cluster, count, EOC_MARK);
    if taken == count && prev != 0 {
      WriteIsUpdate(fat[..], prev, 0xFFFF);
      PutEntry(fat, prev, 0xFFFF);
    } else {
      first := 0;
    }
  }
}
