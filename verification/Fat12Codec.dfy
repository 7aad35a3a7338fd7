/** The packed 12-bit file allocation table: two entries share three bytes. */
module Fat12Codec {
  import opened Bytes
  import opened FatTable

  const EOC_MARK: nat := 0xFFF
  /** Entries at or above this value end a chain. */
  const EOC_MIN: nat := 0xFF8

  /** How many whole entries `n` bytes of table hold. */
  function Capacity(n: nat): nat {
    n * 2 / 3
  }

  function Offset(cluster: nat): nat {
    cluster + cluster / 2
  }

  /** The clusters below the capacity are exactly those whose two bytes lie inside the table. */
  lemma InRange(n: nat, cluster: nat)
    ensures cluster < Capacity(n) <==> Offset(cluster) + 1 < n
  {
  }

  /** fat12_read_entry; entries 0 and 1 read as end-of-chain whatever the table holds. */
  function ReadEntry(fat: seq<byte>, cluster: nat): (v: nat)
    requires cluster < Capacity(|fat|)
    ensures v <= 0xFFF
  {
    if cluster < 2 then EOC_MARK
    else
      var word := U16(fat, Offset(cluster));
      if cluster % 2 == 1 then word / 0x10 else word % 0x1000
  }

  /** The 16-bit word that stores an entry beside the nibble of its neighbour. */
  function Merged(cluster: nat, word: nat, value: nat): (w: nat)
    requires word < 0x1_0000
    ensures w < 0x1_0000
  {
    if cluster % 2 == 1 then value * 0x10 % 0x1_0000 + word % 0x10
    else word / 0x1000 * 0x1000 + value % 0x1000
  }

  /** fat12_write_entry: the nibble that belongs to the neighbouring entry is kept. */
  function WriteEntry(fat: seq<byte>, cluster: nat, value: nat): (r: seq<byte>)
    requires cluster < Capacity(|fat|)
    requires value < 0x1_0000
    ensures |r| == |fat|
  {
    if cluster < 2 then fat
    else
      PutU16(fat, Offset(cluster), Merged(cluster, U16(fat, Offset(cluster)), value))
  }

  /** An even entry is one byte and a low nibble, an odd entry a high nibble and one byte. */
  lemma EntryBytes(fat: seq<byte>, c: nat)
    requires 2 <= c < Capacity(|fat|)
    ensures c % 2 == 0 ==>
              ReadEntry(fat, c) == fat[Offset(c)] as int + 0x100 * (fat[Offset(c) + 1] as int % 0x10)
    ensures c % 2 == 1 ==>
              ReadEntry(fat, c) == fat[Offset(c)] as int / 0x10 + 0x10 * fat[Offset(c) + 1] as int
  {
  }

  /** Writing an entry keeps the other nibble of the byte it shares. */
  lemma WrittenEven(fat: seq<byte>, c: nat, v: nat)
    requires 2 <= c < Capacity(|fat|) && c % 2 == 0
    requires v <= 0xFFF
    ensures var r := WriteEntry(fat, c, v);
            && ReadEntry(r, c) == v
            && r[Offset(c) + 1] as int / 0x10 == fat[Offset(c) + 1] as int / 0x10
  {
    var o := Offset(c);
    assert U16(fat, o) / 0x1000 == fat[o + 1] as int / 0x10;
  }

  lemma WrittenOdd(fat: seq<byte>, c: nat, v: nat)
    requires 2 <= c < Capacity(|fat|) && c % 2 == 1
    requires v <= 0xFFF
    ensures var r := WriteEntry(fat, c, v);
            && ReadEntry(r, c) == v
            && r[Offset(c)] as int % 0x10 == fat[Offset(c)] as int % 0x10
  {
    hide PutU16, U16;
    var o, word := Offset(c), U16(fat, Offset(c));
    NibbleWord(v, word % 0x10);
    LowNibble(fat, o);
    LowNibble(WriteEntry(fat, c, v), o);
  }

  /** The word an odd entry is stored as: its low nibble is the neighbour's. */
  lemma NibbleWord(v: nat, low: nat)
    requires v <= 0xFFF && low < 0x10
    ensures v * 0x10 % 0x1_0000 + low == v * 0x10 + low < 0x1_0000
    ensures (v * 0x10 + low) / 0x10 == v && (v * 0x10 + low) % 0x10 == low
  {
  }

  lemma LowNibble(fat: seq<byte>, o: nat)
    requires o + 1 < |fat|
    ensures U16(fat, o) % 0x10 == fat[o] as int % 0x10
  {
  }

  /** Packed-entry non-interference, including the neighbour that shares a byte. */
  lemma WriteThenRead(fat: seq<byte>, c: nat, v: nat, d: nat)
    requires 2 <= c < Capacity(|fat|) && d < Capacity(|fat|)
    requires v <= 0xFFF
    ensures ReadEntry(WriteEntry(fat, c, v), d) == if d == c then v else ReadEntry(fat, d)
  {
    var r := WriteEntry(fat, c, v);
    if c % 2 == 0 { WrittenEven(fat, c, v); } else { WrittenOdd(fat, c, v); }
    if d >= 2 && d != c {
      EntryBytes(fat, d);
      EntryBytes(r, d);
      assert c % 2 == 0 && d == c + 1 ==> Offset(d) == Offset(c) + 1;
      assert c % 2 == 1 && d + 1 == c ==> Offset(c) == Offset(d) + 1;
      assert !(c % 2 == 0 && d == c + 1) && !(c % 2 == 1 && d + 1 == c) ==>
          Offset(d) + 1 < Offset(c) || Offset(c) + 1 < Offset(d);
    }
  }

  /** The table as a sequence of entries. */
  function Entries(fat: seq<byte>): (t: seq<nat>)
    ensures |t| == Capacity(|fat|)
    ensures forall c :: 0 <= c < |t| ==> t[c] == ReadEntry(fat, c)
  {
    seq(Capacity(|fat|), c requires 0 <= c < Capacity(|fat|) => ReadEntry(fat, c))
  }

  lemma WriteIsUpdate(fat: seq<byte>, c: nat, v: nat)
    requires 2 <= c < Capacity(|fat|)
    requires v <= 0xFFF
    ensures Entries(WriteEntry(fat, c, v)) == Entries(fat)[c := v]
  {
    var r := WriteEntry(fat, c, v);
    forall d | 0 <= d < Capacity(|fat|)
      ensures Entries(r)[d] == Entries(fat)[c := v][d]
    {
      WriteThenRead(fat, c, v, d);
    }
  }

  // ---- Linking a chain into the packed table ----

  /** Cluster numbers that can be stored in a table of `n` entries. */
  predicate InTable(chain: seq<nat>, n: nat) {
    forall i :: 0 <= i < |chain| ==> 2 <= chain[i] < n
  }

  predicate Linkable(fat: seq<byte>, chain: seq<nat>) {
    InTable(chain, Min(Capacity(|fat|), 0xFF8))
  }

  /** The table bytes once every cluster of `chain` but the last points to the next. */
  function LinkingBytes(fat: seq<byte>, chain: seq<nat>): (r: seq<byte>)
    requires Linkable(fat, chain)
    ensures |r| == |fat|
  {
    var n := |chain|;
    if n <= 1 then fat
    else WriteEntry(LinkingBytes(fat, chain[..n - 1]), chain[n - 2], chain[n - 1])
  }

  /** The same with the last cluster marked as the end. */
  function LinkedBytes(fat: seq<byte>, chain: seq<nat>): (r: seq<byte>)
    requires chain != [] && Linkable(fat, chain)
    ensures |r| == |fat|
  {
    WriteEntry(LinkingBytes(fat, chain), chain[|chain| - 1], EOC_MARK)
  }

  lemma {:induction false} LinkingBytesLink(fat: seq<byte>, chain: seq<nat>)
    requires Linkable(fat, chain) && Increasing(chain)
    requires forall i :: 0 <= i < |chain| ==> ReadEntry(fat, chain[i]) == 0
    ensures PartlyLinked(Entries(fat), Entries(LinkingBytes(fat, chain)), chain)
  {
    var n := |chain|;
    if n > 0 {
      var front, last := chain[..n - 1], chain[n - 1];
      FrontOf(chain);
      LinkingBytesLink(fat, front);
      LinkOne(fat, chain, LinkingBytes(fat, front));
      LastStillFree(fat, LinkingBytes(fat, front), front, last);
      hide PartlyLinked, LinkingBytes, Entries, ReadEntry, Increasing;
      ExtendLinked(Entries(fat), Entries(LinkingBytes(fat, front)), Entries(LinkingBytes(fat, chain)), front, last);
    }
  }

  lemma FrontOf(chain: seq<nat>)
    requires chain != [] && Increasing(chain)
    ensures var front, last := chain[..|chain| - 1], chain[|chain| - 1];
            Increasing(front) && front + [last] == chain && forall i :: 0 <= i < |front| ==> front[i] < last
  {
  }

  lemma LastStillFree(fat: seq<byte>, bytes: seq<byte>, front: seq<nat>, last: nat)
    requires PartlyLinked(Entries(fat), Entries(bytes), front) && last < Capacity(|fat|)
    requires ReadEntry(fat, last) == 0 && forall i :: 0 <= i < |front| ==> front[i] < last
    ensures last < |Entries(bytes)| && Entries(bytes)[last] == 0
  {
    assert last !in front;
    assert Entries(bytes)[last] == Entries(fat)[last];
  }

  lemma LinkOne(fat: seq<byte>, chain: seq<nat>, bytes: seq<byte>)
    requires chain != [] && Linkable(fat, chain)
    requires bytes == LinkingBytes(fat, chain[..|chain| - 1])
    ensures var n := |chain|;
            Entries(LinkingBytes(fat, chain)) ==
            if n == 1 then Entries(bytes) else Entries(bytes)[chain[n - 2] := chain[n - 1]]
  {
    if |chain| > 1 {
      WriteIsUpdate(bytes, chain[|chain| - 2], chain[|chain| - 1]);
    } else {
      assert chain[..0] == [];
    }
  }

  /** Linking a chain of free clusters into the packed bytes is linking it into the table. */
  lemma LinkedBytesLink(fat: seq<byte>, chain: seq<nat>)
    requires chain != [] && Linkable(fat, chain) && Increasing(chain)
    requires forall i :: 0 <= i < |chain| ==> ReadEntry(fat, chain[i]) == 0
    ensures Linked(Entries(fat), Entries(LinkedBytes(fat, chain)), chain, EOC_MARK)
  {
    var last := chain[|chain| - 1];
    LinkingBytesLink(fat, chain);
    var bytes := LinkingBytes(fat, chain);
    WriteIsUpdate(bytes, last, EOC_MARK);
    MarkLast(Entries(fat), Entries(bytes), chain, EOC_MARK);
  }

  // ---- The same operations on the table held in memory ----

  method PutEntry(fat: array<byte>, cluster: nat, value: nat)
    requires cluster < Capacity(fat.Length)
    requires value < 0x1_0000
    modifies fat
    ensures fat[..] == WriteEntry(old(fat[..]), cluster, value)
  {
    if cluster < 2 { return; }
    hide Merged;
    var offset := cluster + cluster / 2;
    var current := fat[offset] as int + 0x100 * fat[offset + 1] as int;
    var word := Merged(cluster, current, value);
    fat[offset] := word % 0x100;
    fat[offset + 1] := word / 0x100;
  }

  method GetEntry(fat: array<byte>, cluster: nat) returns (v: nat)
    requires cluster < Capacity(fat.Length)
    ensures v == ReadEntry(fat[..], cluster)
  {
    if cluster < 2 { return 0xFFF; }
    var offset := cluster + cluster / 2;
    var value := fat[offset] as int + 0x100 * fat[offset + 1] as int;
    v := if cluster % 2 == 1 then value / 0x10 else value % 0x1000;
  }

  /** fat12_find_free_cluster: the lowest free cluster, or -1. */
  method FindFreeCluster(fat: array<byte>, maxClusters: nat) returns (r: int)
    requires maxClusters <= Capacity(fat.Length)
    ensures var chain := FirstFree(Entries(fat[..])[..maxClusters], 2, 1);
            r == if chain == [] then -1 else chain[0]
  {
    ghost var t := Entries(fat[..])[..maxClusters];
    var cluster := 2;
    while cluster < maxClusters
      invariant 2 <= cluster
      invariant FirstFree(t, 2, 1) == FirstFree(t, cluster, 1)
    {
      var e := GetEntry(fat, cluster);
      assert t[cluster] == e;
      if e == 0 { return cluster; }
      cluster := cluster + 1;
    }
    return -1;
  }

  /** One cluster found: hang it behind the previous one, if there is one. */
  method Take(fat: array<byte>, prev: nat, cluster: nat, ghost fat0: seq<byte>,
              ghost limit: nat, ghost chain: seq<nat>, ghost count: nat)
    requires limit <= Min(Capacity(fat.Length), 0xFF8) && |chain| < count && cluster < limit
    requires |fat0| == fat.Length && Linkable(fat0, chain) && fat[..] == LinkingBytes(fat0, chain)
    requires Progress(Entries(fat0), Entries(fat[..]), limit, chain, cluster, count)
    requires Entries(fat[..])[cluster] == 0
    requires prev == if chain == [] then 0 else chain[|chain| - 1]
    modifies fat
    ensures Linkable(fat0, chain + [cluster]) && fat[..] == LinkingBytes(fat0, chain + [cluster])
    ensures Progress(Entries(fat0), Entries(fat[..]), limit, chain + [cluster], cluster + 1, count)
  {
    hide Progress;
    ghost var t' := Entries(fat[..]);
    ghost var chain' := chain + [cluster];
    assert chain'[..|chain|] == chain;
    if prev != 0 {
      WriteIsUpdate(fat[..], prev, cluster);
      PutEntry(fat, prev, cluster);
    }
    ProgressTake(Entries(fat0), t', Entries(fat[..]), limit, chain, cluster, count);
  }

  /** The allocation loop of fat12_alloc_clusters on the table held in memory. */
  method LinkFree(fat: array<byte>, maxClusters: nat, count: nat) returns (first: nat)
    requires maxClusters <= Min(Capacity(fat.Length), 0xFF8)
    modifies fat
    ensures AllocOutcome(Entries(old(fat[..])), Entries(fat[..]), maxClusters, count, 0xFFF, first)
    ensures var chain := FirstFree(Entries(old(fat[..]))[..maxClusters], 2, count);
            if count > 0 && |chain| == count
            then first == chain[0] && fat[..] == LinkedBytes(old(fat[..]), chain)
            else first == 0
  {
    hide Progress, FirstFree, WriteEntry, ReadEntry, Linked, LinkingBytes, Linkable;
    ghost var fat0 := fat[..];
    ghost var t := Entries(fat0);
    ghost var chain: seq<nat> := [];
    LinkingNone(fat0);
    first := 0;
    var prev := 0;
    var taken := 0;
    var cluster := 2;
    ProgressStart(t, maxClusters, count);
    while cluster < maxClusters && taken < count
      invariant 2 <= cluster
      invariant Linkable(fat0, chain) && fat[..] == LinkingBytes(fat0, chain)
      invariant Progress(t, Entries(fat[..]), maxClusters, chain, cluster, count)
      invariant taken == |chain| <= count
      invariant chain == [] ==> first == 0 && prev == 0
      invariant chain != [] ==> first == chain[0] && first >= 2 && prev == chain[|chain| - 1]
    {
      ghost var t' := Entries(fat[..]);
      var e := GetEntry(fat, cluster);
      assert e == t'[cluster];
      if e == 0 {
        Take(fat, prev, cluster, fat0, maxClusters, chain, count);
        if first == 0 {
          first := cluster;
        }
        chain := chain + [cluster];
        prev := cluster;
        taken := taken + 1;
      } else {
        ProgressSkip(t, t', maxClusters, chain, cluster, count);
      }
      cluster := cluster + 1;
    }
    ProgressEnd(t, Entries(fat[..]), maxClusters, chain, cluster, count, EOC_MARK);
    if taken == count && prev != 0 {
      WriteIsUpdate(fat[..], prev, 0xFFF);
      PutEntry(fat, prev, 0xFFF);
    } else {
      first := 0;
    }
  }

  lemma LinkingNone(fat: seq<byte>)
    ensures Linkable(fat, []) && LinkingBytes(fat, []) == fat
  {
  }
}
