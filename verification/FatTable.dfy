/** The file allocation table as an abstract sequence of entries, and the cluster allocator that
    the FAT12, FAT16 and FAT32 drivers all run over it.  Entry 0 means "free"; a chain is a list of
    clusters each of whose entries names the next one, the last one holding an end-of-chain mark. */
module FatTable {

  /** The first `count` free clusters at or above `from`, in ascending order (fewer if there are
      not that many). */
  function FirstFree(t: seq<nat>, from: nat, count: nat): (chain: seq<nat>)
    ensures |chain| <= count
    ensures forall i :: 0 <= i < |chain| ==> from <= chain[i] < |t| && t[chain[i]] == 0
    decreases |t| - from
  {
    if from >= |t| || count == 0 then []
    else if t[from] == 0 then [from] + FirstFree(t, from + 1, count - 1)
    else FirstFree(t, from + 1, count)
  }

  /** How many entries at or above `from` are free. */
  function FreeCount(t: seq<nat>, from: nat): nat
    decreases |t| - from
  {
    if from >= |t| then 0 else (if t[from] == 0 then 1 else 0) + FreeCount(t, from + 1)
  }

  ghost predicate Increasing(chain: seq<nat>) {
    forall i, j :: 0 <= i < j < |chain| ==> chain[i] < chain[j]
  }

  /** The value the entry of the `i`-th cluster of `chain` holds once the chain is linked. */
  function Successor(chain: seq<nat>, eoc: nat, i: nat): nat
    requires i < |chain|
  {
    if i + 1 < |chain| then chain[i + 1] else eoc
  }

  /** `chain` is linked in `t`: every cluster's entry is its successor, the last one's is `eoc`. */
  ghost predicate IsChain(t: seq<nat>, chain: seq<nat>, eoc: nat) {
    && (forall i :: 0 <= i < |chain| ==> chain[i] < |t|)
    && (forall i {:trigger Successor(chain, eoc, i)} :: 0 <= i < |chain| ==> t[chain[i]] == Successor(chain, eoc, i))
  }

  ghost predicate SameOutside(t: seq<nat>, t': seq<nat>, chain: seq<nat>) {
    && |t'| == |t|
    && forall c :: 0 <= c < |t| && c !in chain ==> t'[c] == t[c]
  }

  /** What a successful allocation of `chain` does to the table. */
  ghost predicate Linked(t: seq<nat>, t': seq<nat>, chain: seq<nat>, eoc: nat) {
    && SameOutside(t, t', chain)
    && IsChain(t', chain, eoc)
  }

  /** The contract all three allocators meet: they link the first `count` free clusters below
      `limit` into a chain and return its head, or return 0. */
  ghost predicate AllocOutcome(t: seq<nat>, t': seq<nat>, limit: nat, count: nat, eoc: nat, first: nat)
    requires limit <= |t|
  {
    var chain := FirstFree(t[..limit], 2, count);
    if count > 0 && |chain| == count
    then first == chain[0] && Linked(t, t', chain, eoc)
    else first == 0
  }

  // ---- The allocation loop, one iteration at a time ----

  /** The table after `chain` has been found but its last cluster not yet been marked. */
  ghost predicate PartlyLinked(t: seq<nat>, t': seq<nat>, chain: seq<nat>) {
    && SameOutside(t, t', chain)
    && IsChain(t', chain, 0)
  }

  /** The loop invariant: `chain` is what was found below `cluster`, and the rest of the search
      continues from there. */
  ghost predicate Progress(t: seq<nat>, t': seq<nat>, limit: nat, chain: seq<nat>, cluster: nat, count: nat) {
    && 2 <= cluster && limit <= |t|
    && |chain| <= count
    && PartlyLinked(t, t', chain)
    && Increasing(chain)
    && (forall i :: 0 <= i < |chain| ==> 2 <= chain[i] < cluster)
    && FirstFree(t[..limit], 2, count) == chain + FirstFree(t[..limit], cluster, count - |chain|)
  }

  lemma ProgressStart(t: seq<nat>, limit: nat, count: nat)
    requires limit <= |t|
    ensures Progress(t, t, limit, [], 2, count)
  {
    assert FirstFree(t[..limit], 2, count) == [] + FirstFree(t[..limit], 2, count);
  }

  lemma ProgressSkip(t: seq<nat>, t': seq<nat>, limit: nat, chain: seq<nat>, cluster: nat, count: nat)
    requires Progress(t, t', limit, chain, cluster, count)
    requires cluster < limit && t'[cluster] != 0 && |chain| < count
    ensures Progress(t, t', limit, chain, cluster + 1, count)
  {
    assert cluster !in chain;
    assert t[..limit][cluster] == t'[cluster];
  }

  /** The new cluster is linked behind the last one found (when there is one). */
  lemma ProgressTake(t: seq<nat>, t': seq<nat>, t'': seq<nat>, limit: nat, chain: seq<nat>, cluster: nat, count: nat)
    requires Progress(t, t', limit, chain, cluster, count)
    requires cluster < limit && t'[cluster] == 0 && |chain| < count
    requires t'' == if chain == [] then t' else t'[chain[|chain| - 1] := cluster]
    ensures Progress(t, t'', limit, chain + [cluster], cluster + 1, count)
  {
    hide FirstFree, PartlyLinked;
    StillFree(t, t', chain, cluster);
    assert t[..limit][cluster] == 0;
    FirstFreeHit(t[..limit], cluster, count - |chain|);
    ExtendLinked(t, t', t'', chain, cluster);
    var chain' := chain + [cluster];
    var rest := FirstFree(t[..limit], cluster + 1, count - |chain'|);
    assert chain + ([cluster] + rest) == chain' + rest;
  }

  /** A cluster past those found so far is as it was. */
  lemma StillFree(t: seq<nat>, t': seq<nat>, chain: seq<nat>, cluster: nat)
    requires PartlyLinked(t, t', chain) && cluster < |t|
    requires forall i :: 0 <= i < |chain| ==> chain[i] < cluster
    ensures |t'| == |t| && t'[cluster] == t[cluster]
  {
    assert cluster !in chain;
  }

  lemma FirstFreeHit(t: seq<nat>, from: nat, count: nat)
    requires from < |t| && count > 0 && t[from] == 0
    ensures FirstFree(t, from, count) == [from] + FirstFree(t, from + 1, count - 1)
  {
  }

  lemma ExtendLinked(t: seq<nat>, t': seq<nat>, t'': seq<nat>, chain: seq<nat>, cluster: nat)
    requires PartlyLinked(t, t', chain) && Increasing(chain)
    requires forall i :: 0 <= i < |chain| ==> chain[i] < cluster
    requires cluster < |t| && t'[cluster] == 0
    requires t'' == if chain == [] then t' else t'[chain[|chain| - 1] := cluster]
    ensures PartlyLinked(t, t'', chain + [cluster])
  {
    var chain' := chain + [cluster];
    var n := |chain|;
    forall i | 0 <= i < |chain'|
      ensures chain'[i] < |t''| && t''[chain'[i]] == Successor(chain', 0, i)
    {
      assert i < n - 1 ==> chain[i] < chain[n - 1];
      assert i < n ==> t'[chain[i]] == Successor(chain, 0, i);
    }
    forall c | 0 <= c < |t| && c !in chain'
      ensures t''[c] == t[c]
    {
      assert forall k :: 0 <= k < n ==> chain[k] == chain'[k];
      assert c !in chain;
    }
  }

  /** When the loop stops, the search is complete; marking the last cluster finishes the chain. */
  lemma ProgressEnd(t: seq<nat>, t': seq<nat>, limit: nat, chain: seq<nat>, cluster: nat, count: nat, eoc: nat)
    requires Progress(t, t', limit, chain, cluster, count)
    requires cluster >= limit || |chain| == count
    ensures FirstFree(t[..limit], 2, count) == chain
    ensures chain != [] ==> Linked(t, t'[chain[|chain| - 1] := eoc], chain, eoc)
  {
    assert FirstFree(t[..limit], cluster, count - |chain|) == [];
    assert chain + [] == chain;
    if chain != [] {
      MarkLast(t, t', chain, eoc);
    }
  }

  lemma MarkLast(t: seq<nat>, t': seq<nat>, chain: seq<nat>, eoc: nat)
    requires chain != [] && PartlyLinked(t, t', chain) && Increasing(chain)
    ensures Linked(t, t'[chain[|chain| - 1] := eoc], chain, eoc)
  {
    var t'' := t'[chain[|chain| - 1] := eoc];
    forall i | 0 <= i < |chain|
      ensures chain[i] < |t''| && t''[chain[i]] == Successor(chain, eoc, i)
    {
      assert t'[chain[i]] == Successor(chain, 0, i);
    }
    assert chain[|chain| - 1] in chain;
  }

  // ---- What the contract means ----

  lemma {:induction false} FirstFreeIncreasing(t: seq<nat>, from: nat, count: nat)
    ensures Increasing(FirstFree(t, from, count))
    decreases |t| - from
  {
    if from < |t| && count > 0 {
      FirstFreeIncreasing(t, from + 1, if t[from] == 0 then count - 1 else count);
    }
  }

  /** First fit, exactly: a free cluster below the last one taken is itself taken, and when too few
      were found every free cluster was. */
  lemma {:induction false} FirstFreeIsFirst(t: seq<nat>, from: nat, count: nat, c: nat)
    requires from <= c < |t| && t[c] == 0
    ensures var chain := FirstFree(t, from, count);
            c in chain || (|chain| == count && forall i :: 0 <= i < count ==> chain[i] < c)
    decreases |t| - from
  {
    if count > 0 && c != from {
      FirstFreeIsFirst(t, from + 1, if t[from] == 0 then count - 1 else count, c);
      if t[from] == 0 {
        var rest := FirstFree(t, from + 1, count - 1);
        assert FirstFree(t, from, count) == [from] + rest;
        if c in rest { assert c in FirstFree(t, from, count); }
      }
    } else if count > 0 {
      assert FirstFree(t, from, count)[0] == c;
    }
  }

  lemma {:induction false} FirstFreeCount(t: seq<nat>, from: nat, count: nat)
    ensures |FirstFree(t, from, count)| == if count <= FreeCount(t, from) then count else FreeCount(t, from)
    decreases |t| - from
  {
    if from < |t| {
      if count > 0 {
        FirstFreeCount(t, from + 1, if t[from] == 0 then count - 1 else count);
      }
    }
  }

  lemma {:induction false} FreeCountAfter(t: seq<nat>, t': seq<nat>, chain: seq<nat>, eoc: nat, from: nat)
    requires eoc != 0
    requires Linked(t, t', chain, eoc) && Increasing(chain)
    requires forall i :: 0 <= i < |chain| ==> from <= chain[i] && chain[i] > 0 && t[chain[i]] == 0
    ensures FreeCount(t, from) == FreeCount(t', from) + |chain|
    decreases |t| - from
  {
    if chain == [] {
      FreeCountSame(t, t', from);
    } else {
      LinkedHead(t, t', chain, eoc, from);
      if chain[0] == from { FreeCountRest(t, t', chain, eoc, from); }
      hide Linked, Increasing;
      if chain[0] != from {
        assert forall i :: 0 <= i < |chain| ==> from + 1 <= chain[i];
        FreeCountAfter(t, t', chain, eoc, from + 1);
      }
    }
  }

  /** The first cluster of a linked chain is taken, and no cluster below it has changed. */
  lemma LinkedHead(t: seq<nat>, t': seq<nat>, chain: seq<nat>, eoc: nat, from: nat)
    requires eoc != 0 && chain != [] && Linked(t, t', chain, eoc) && Increasing(chain)
    requires forall i :: 0 <= i < |chain| ==> from <= chain[i] && chain[i] > 0
    ensures |t'| == |t| && from <= chain[0] < |t| && t'[chain[0]] != 0
    ensures from < chain[0] ==> t'[from] == t[from] && forall i :: 0 <= i < |chain| ==> from < chain[i]
  {
    assert t'[chain[0]] == Successor(chain, eoc, 0);
    assert forall i :: 0 < i < |chain| ==> chain[0] < chain[i];
    assert from < chain[0] ==> from !in chain;
  }

  lemma {:induction false} FreeCountRest(t: seq<nat>, t': seq<nat>, chain: seq<nat>, eoc: nat, from: nat)
    requires eoc != 0
    requires Linked(t, t', chain, eoc) && Increasing(chain)
    requires forall i :: 0 <= i < |chain| ==> from <= chain[i] && chain[i] > 0 && t[chain[i]] == 0
    requires |chain| > 0 && chain[0] == from
    ensures FreeCount(t, from + 1) == FreeCount(t', from + 1) + |chain| - 1
    decreases |t| - from, 0
  {
    var rest := chain[1..];
    var mid := t[from := t'[from]];
    FreeCountSame(t, mid, from + 1);
    LinkedRest(t, t', chain, eoc);
    FreeCountAfter(mid, t', rest, eoc, from + 1);
  }

  /** Without its first cluster a linked chain is still linked, over the table that already has the
      first cluster's entry. */
  lemma LinkedRest(t: seq<nat>, t': seq<nat>, chain: seq<nat>, eoc: nat)
    requires |chain| > 0 && Linked(t, t', chain, eoc) && Increasing(chain)
    ensures Linked(t[chain[0] := t'[chain[0]]], t', chain[1..], eoc)
  {
    var rest := chain[1..];
    var mid := t[chain[0] := t'[chain[0]]];
    forall i | 0 <= i < |rest|
      ensures rest[i] < |t'| && t'[rest[i]] == Successor(rest, eoc, i)
    {
      assert t'[chain[i + 1]] == Successor(chain, eoc, i + 1);
    }
    forall c | 0 <= c < |mid| && c !in rest
      ensures t'[c] == mid[c]
    {
      HeadOrRest(chain, c);
    }
  }

  lemma HeadOrRest(chain: seq<nat>, c: nat)
    requires chain != []
    ensures c in chain <==> c == chain[0] || c in chain[1..]
  {
  }

  lemma {:induction false} FreeCountSame(t: seq<nat>, t': seq<nat>, from: nat)
    requires |t| == |t'|
    requires forall c :: from <= c < |t| ==> t[c] == t'[c]
    ensures FreeCount(t, from) == FreeCount(t', from)
    decreases |t| - from
  {
    if from < |t| {
      FreeCountSame(t, t', from + 1);
    }
  }

  /** Allocator correctness: success exactly when enough clusters below the limit are free; then
      the head returned starts a strictly increasing end-marked chain of `count` previously free
      clusters, no free cluster below the last of them is passed over, no other entry changes, and
      the number of free clusters drops by exactly `count`. */
  lemma AllocCorrect(t: seq<nat>, t': seq<nat>, limit: nat, count: nat, eoc: nat, first: nat)
    requires eoc != 0 && count > 0 && limit <= |t|
    requires AllocOutcome(t, t', limit, count, eoc, first)
    ensures first != 0 <==> count <= FreeCount(t[..limit], 2)
    ensures first != 0 ==>
              var chain := FirstFree(t[..limit], 2, count);
              && |chain| == count && chain[0] == first
              && Increasing(chain)
              && IsChain(t', chain, eoc)
              && (forall i :: 0 <= i < count ==> t[chain[i]] == 0)
              && (forall c :: 2 <= c < limit && t[c] == 0 && c !in chain ==> chain[count - 1] < c)
              && SameOutside(t, t', chain)
              && FreeCount(t'[..limit], 2) == FreeCount(t[..limit], 2) - count
  {
    var s := t[..limit];
    var chain := FirstFree(s, 2, count);
    FirstFreeCount(s, 2, count);
    FirstFreeIncreasing(s, 2, count);
    if first != 0 {
      forall c | 2 <= c < limit && t[c] == 0 && c !in chain
        ensures chain[count - 1] < c
      {
        FirstFreeIsFirst(s, 2, count, c);
      }
      assert Linked(s, t'[..limit], chain, eoc);
      FreeCountAfter(s, t'[..limit], chain, eoc, 2);
    }
  }
}
