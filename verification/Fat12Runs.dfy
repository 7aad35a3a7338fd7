/** Whole runs.  A volume is compared with a simple model - a list of named files and a log of the
    cluster chains handed out - and every run of fat12_write_file is shown to keep the two in step. */
module Fat12Runs {
  import opened Bytes
  import opened Options
  import opened Ide
  import opened FatTable
  import opened Fat12Codec
  import opened Fat12Volume
  import opened Fat12Chains
  import opened Fat12Effects
  import opened Fat12RoundTrip

  // ---- The model ----

  /** A directory slot in use: its 8.3 name, which chain of the log it owns, and what was written. */
  datatype File = File(name: seq<byte>, owner: nat, data: seq<byte>)

  /** All chains ever handed out, and the directory.  A chain no file owns is an orphan: its write
      found no directory slot, or its entry was overwritten because its name starts with the
      deletion mark. */
  datatype Fs = Fs(chains: seq<seq<nat>>, files: seq<File>)

  predicate Taken(chains: seq<seq<nat>>, c: nat) {
    exists i :: 0 <= i < |chains| && c in chains[i]
  }

  /** An allocation table that only knows which clusters are taken. */
  function TakenTable(chains: seq<seq<nat>>, max: nat): (t: seq<nat>)
    ensures |t| == max
  {
    seq(max, c requires 0 <= c < max => if c < 2 || Taken(chains, c) then 1 else 0)
  }

  /** First fit over the log of chains. */
  function Allocate(chains: seq<seq<nat>>, max: nat, count: nat): seq<nat> {
    var chain := if max < 3 then [] else FirstFree(TakenTable(chains, max), 2, count);
    if |chain| == count then chain else []
  }

  /** The slot a new file goes to: the first whose name reads as deleted, else the next unused. */
  function SlotFor(files: seq<File>, slots: nat, k: nat): Option<nat>
    requires forall i :: 0 <= i < |files| ==> |files[i].name| == 11
    decreases |files| - k
  {
    if k >= |files| then (if k < slots then Some(k) else None)
    else if files[k].name[0] == 0xE5 then Some(k)
    else SlotFor(files, slots, k + 1)
  }

  function Replace<T>(s: seq<T>, k: nat, x: T): seq<T>
    requires k <= |s|
  {
    if k < |s| then s[k := x] else s + [x]
  }

  predicate Names(files: seq<File>) {
    forall i :: 0 <= i < |files| ==> |files[i].name| == 11
  }

  lemma SlotForBound(files: seq<File>, slots: nat, k: nat)
    requires Names(files) && k <= |files|
    ensures var r := SlotFor(files, slots, k);
            r.Some? ==> (k <= r.value <= |files|
                         && (r.value < |files| ==> files[r.value].name[0] == 0xE5)
                         && (forall i :: k <= i < r.value ==> files[i].name[0] != 0xE5))
    ensures SlotFor(files, slots, k).None? ==> forall i :: k <= i < |files| ==> files[i].name[0] != 0xE5
    decreases |files| - k
  {
    if k < |files| && files[k].name[0] != 0xE5 { SlotForBound(files, slots, k + 1); }
  }

  function WriteModel(fs: Fs, b: Bpb, slots: nat, name: seq<byte>, data: seq<byte>): (r: (Fs, int))
    requires ValidBpb(b) && Names(fs.files)
    ensures Names(r.0.files)
  {
    var chain := Allocate(fs.chains, MaxClusters(b), ClustersNeeded(b, |data|));
    if chain == [] then (fs, -2)
    else
      var chains := fs.chains + [chain];
      SlotForBound(fs.files, slots, 0);
      var k := SlotFor(fs.files, slots, 0);
      if k == None then (Fs(chains, fs.files), -3)
      else (Fs(chains, Replace(fs.files, k.value, File(FormatName(name), |fs.chains|, data))), 0)
  }

  /** The first file of that name, unless the name reads as deleted. */
  function FindModel(files: seq<File>, fname: seq<byte>, k: nat): Option<nat>
    requires Names(files)
    decreases |files| - k
  {
    if k >= |files| then None
    else if files[k].name == fname && fname[0] != 0xE5 then Some(k)
    else FindModel(files, fname, k + 1)
  }

  datatype Op = Op(name: seq<byte>, data: seq<byte>, stack: seq<byte>)

  ghost predicate Callable(op: Op) {
    0 !in op.name && |op.data| < 0x1_0000_0000 && |op.stack| == FAT_BUFFER
  }

  ghost predicate AllCallable(ops: seq<Op>) {
    forall i :: 0 <= i < |ops| ==> Callable(ops[i])
  }

  function RunModel(fs: Fs, b: Bpb, slots: nat, ops: seq<Op>): (r: Fs)
    requires ValidBpb(b) && Names(fs.files)
    ensures Names(r.files)
  {
    if ops == [] then fs
    else
      var last := |ops| - 1;
      WriteModel(RunModel(fs, b, slots, ops[..last]), b, slots, ops[last].name, ops[last].data).0
  }

  function RunDisk(disk: Disk, b: Bpb, ops: seq<Op>): (d: Disk)
    requires Usable(b) && AllCallable(ops)
    ensures |d| == |disk|
  {
    if ops == [] then disk
    else
      var last := |ops| - 1;
      WriteFile(RunDisk(disk, b, ops[..last]), b, ops[last].name, ops[last].data, ops[last].stack).0
  }

  // ---- The invariant that ties disk and model ----

  /** Every chain is strictly increasing, hence acyclic, runs through the table to an end mark and
      shares no cluster with another; a cluster is free exactly when no chain has it. */
  ghost predicate ChainsOk(t: seq<nat>, max: nat, chains: seq<seq<nat>>) {
    && max <= |t|
    && (forall i :: 0 <= i < |chains| ==> ChainOk(t, max, chains[i]))
    && (forall i, j, c :: 0 <= i < j < |chains| && c in chains[i] ==> c !in chains[j])
    && (forall c :: 2 <= c < max ==> (t[c] == 0 <==> !Taken(chains, c)))
  }

  ghost predicate ChainOk(t: seq<nat>, max: nat, chain: seq<nat>) {
    chain != [] && Increasing(chain) && InTable(chain, max) && IsChain(t, chain, EOC_MARK)
  }

  /** What the directory slot of a file holds. */
  ghost predicate SlotOk(disk: Disk, b: Bpb, fs: Fs, k: nat)
    requires ValidBpb(b) && k < Slots(disk, b) && k < |fs.files|
  {
    var f := fs.files[k];
    && |f.name| == 11 && f.name[0] != 0x00 && f.owner < |fs.chains| && |f.data| < 0x1_0000_0000
    && var chain := fs.chains[f.owner];
       && chain != [] && chain[0] < 0x1_0000 && Clusters(chain)
       && Slot(disk, b, k) == DirEntry(f.name, chain[0], |f.data|)
       && |chain| == ClustersNeeded(b, |f.data|)
       && Stored(disk, b, chain, f.data)
  }

  ghost predicate Represents(disk: Disk, b: Bpb, fs: Fs) {
    && Vol(disk, b)
    && ChainsOk(Entries(FatOf(disk, b)), MaxClusters(b), fs.chains)
    && Names(fs.files) && |fs.files| <= Slots(disk, b)
    && (forall k :: 0 <= k < |fs.files| ==> SlotOk(disk, b, fs, k))
    && (forall i, j :: 0 <= i < j < |fs.files| ==> fs.files[i].owner != fs.files[j].owner)
    && (forall k :: |fs.files| <= k < Slots(disk, b) ==> Slot(disk, b, k)[0] == 0x00)
  }

  // ---- Allocation agrees with the model ----

  lemma {:induction false} SameZerosSameSearch(s: seq<nat>, t: seq<nat>, from: nat, count: nat)
    requires |s| == |t|
    requires forall c :: from <= c < |s| ==> (s[c] == 0 <==> t[c] == 0)
    ensures FirstFree(s, from, count) == FirstFree(t, from, count)
    decreases |s| - from
  {
    if from < |s| && count > 0 {
      SameZerosSameSearch(s, t, from + 1, if s[from] == 0 then count - 1 else count);
    }
  }

  lemma AllocAgrees(disk: Disk, b: Bpb, chains: seq<seq<nat>>, count: nat)
    requires Vol(disk, b) && ChainsOk(Entries(FatOf(disk, b)), MaxClusters(b), chains)
    ensures AllocChain(disk, b, count) == Allocate(chains, MaxClusters(b), count)
  {
    SameZerosSameSearch(Entries(FatOf(disk, b))[..MaxClusters(b)], TakenTable(chains, MaxClusters(b)), 2, count);
  }

  /** Linking a chain of free clusters keeps the invariant of the chain log. */
  lemma ChainsGrow(t: seq<nat>, t': seq<nat>, max: nat, chains: seq<seq<nat>>, chain: seq<nat>)
    requires ChainsOk(t, max, chains)
    requires chain != [] && Increasing(chain) && InTable(chain, max) && Linked(t, t', chain, EOC_MARK)
    requires forall i :: 0 <= i < |chain| ==> t[chain[i]] == 0
    ensures ChainsOk(t', max, chains + [chain])
  {
    var all := chains + [chain];
    FreshChain(t, max, chains, chain);
    forall i | 0 <= i < |all|
      ensures ChainOk(t', max, all[i])
    {
      if i < |chains| { ChainStays(t, t', max, chains[i], chain); }
    }
    forall c | 2 <= c < max
      ensures t'[c] == 0 <==> !Taken(all, c)
    {
      TakenMore(chains, chain, c);
      if c in chain {
        var i :| 0 <= i < |chain| && chain[i] == c;
        assert t'[chain[i]] == Successor(chain, EOC_MARK, i);
      }
    }
  }

  lemma FreshChain(t: seq<nat>, max: nat, chains: seq<seq<nat>>, chain: seq<nat>)
    requires ChainsOk(t, max, chains) && InTable(chain, max)
    requires forall i :: 0 <= i < |chain| ==> t[chain[i]] == 0
    ensures forall i, c :: 0 <= i < |chains| && c in chains[i] ==> c !in chain
  {
    forall i, c | 0 <= i < |chains| && c in chains[i]
      ensures c !in chain
    {
      assert Taken(chains, c);
    }
  }

  lemma ChainStays(t: seq<nat>, t': seq<nat>, max: nat, old_: seq<nat>, chain: seq<nat>)
    requires ChainOk(t, max, old_) && SameOutside(t, t', chain)
    requires forall c :: c in old_ ==> c !in chain
    ensures ChainOk(t', max, old_)
  {
    forall i | 0 <= i < |old_|
      ensures old_[i] < |t'| && t'[old_[i]] == Successor(old_, EOC_MARK, i)
    {
      assert old_[i] in old_;
    }
  }

  lemma TakenMore(chains: seq<seq<nat>>, chain: seq<nat>, c: nat)
    ensures Taken(chains + [chain], c) <==> Taken(chains, c) || c in chain
  {
    var all := chains + [chain];
    if c in chain { assert c in all[|chains|]; }
    if Taken(chains, c) {
      var i :| 0 <= i < |chains| && c in chains[i];
      assert c in all[i];
    }
  }

  // ---- The directory agrees with the model ----

  lemma {:induction false} SlotAgrees(disk: Disk, b: Bpb, fs: Fs, k: nat)
    requires Represents(disk, b, fs)
    ensures FindSlot(disk, b, k) == SlotFor(fs.files, Slots(disk, b), k)
    decreases Slots(disk, b) - k
  {
    if k < Slots(disk, b) {
      SlotFree(disk, b, fs, k);
      SlotAgrees(disk, b, fs, k + 1);
    }
  }

  lemma SlotFree(disk: Disk, b: Bpb, fs: Fs, k: nat)
    requires Represents(disk, b, fs) && k < Slots(disk, b)
    ensures IsFree(Slot(disk, b, k)) <==> k >= |fs.files| || fs.files[k].name[0] == 0xE5
    ensures Slot(disk, b, k)[0] == 0x00 <==> k >= |fs.files|
  {
    if k < |fs.files| {
      assert SlotOk(disk, b, fs, k);
      assert Slot(disk, b, k)[..11] == fs.files[k].name;
      assert Slot(disk, b, k)[0] == Slot(disk, b, k)[..11][0];
    }
  }

  lemma {:induction false} FindAgrees(disk: Disk, b: Bpb, fs: Fs, fname: seq<byte>, k: nat)
    requires Represents(disk, b, fs) && |fname| == 11 && fname[0] != 0x00
    ensures FindFile(disk, b, fname, k) == FindModel(fs.files, fname, k)
    decreases Slots(disk, b) - k
  {
    if k < Slots(disk, b) {
      SlotFree(disk, b, fs, k);
      if k < |fs.files| {
        assert SlotOk(disk, b, fs, k);
        var f := fs.files[k];
        DirEntryMatches(f.name, fs.chains[f.owner][0], |f.data|, fname);
      }
      FindAgrees(disk, b, fs, fname, k + 1);
    }
  }

  // ---- One call ----

  /** A file that was there keeps its entry and its data when another chain is linked and filled. */
  lemma SlotStays(disk: Disk, d: Disk, b: Bpb, fs: Fs, fs': Fs, chain: seq<nat>, k: nat)
    requires Vol(disk, b) && |d| == |disk| && Clusters(chain)
    requires k < Slots(disk, b) && k < |fs.files| && SlotOk(disk, b, fs, k)
    requires SameOtherClusters(disk, d, b, chain)
    requires Slot(d, b, k) == Slot(disk, b, k)
    requires k < |fs'.files| && fs'.files[k] == fs.files[k] && fs'.chains == fs.chains + [chain]
    requires forall i, c :: 0 <= i < |fs.chains| && c in fs.chains[i] ==> c !in chain
    ensures SlotOk(d, b, fs', k)
  {
    var f := fs.files[k];
    var own := fs.chains[f.owner];
    assert fs'.chains[f.owner] == own;
    StoredElsewhere(disk, d, b, own, chain, f.data);
  }

  lemma {:induction false} StoredElsewhere(disk: Disk, d: Disk, b: Bpb, own: seq<nat>, chain: seq<nat>, data: seq<byte>)
    requires Clusters(own) && Clusters(chain) && |d| == |disk|
    requires SameOtherClusters(disk, d, b, chain) && Stored(disk, b, own, data)
    requires forall c :: c in own ==> c !in chain
    ensures Stored(d, b, own, data)
    decreases |own|
  {
    if own != [] && data != [] {
      HoldsElsewhere(disk, d, b, own[0], ClusterImage(b, data), chain);
      StoredElsewhere(disk, d, b, own[1..], chain, Rest(b, data));
    }
  }

  lemma HoldsElsewhere(disk: Disk, d: Disk, b: Bpb, c: nat, image: seq<byte>, chain: seq<nat>)
    requires 2 <= c && Clusters(chain) && c !in chain && |image| == ClusterBytes(b)
    requires SameOtherClusters(disk, d, b, chain) && Holds(disk, b, c, image)
    ensures Holds(d, b, c, image)
  {
    forall s | 0 <= s < b.sectorsPerCluster && ClusterLba(b, c) + s < |d|
      ensures d[ClusterLba(b, c) + s] == SectorOf(image, s)
    {
      OtherCluster(b, c, chain, ClusterLba(b, c) + s);
    }
  }

  lemma TableAfter(disk: Disk, d: Disk, b: Bpb, fs: Fs, chain: seq<nat>)
    requires Represents(disk, b, fs) && |d| == |disk|
    requires FreeChain(disk, b, chain) && TableGrew(disk, d, b, chain)
    ensures ChainsOk(Entries(FatOf(d, b)), MaxClusters(b), fs.chains + [chain])
    ensures forall i, c :: 0 <= i < |fs.chains| && c in fs.chains[i] ==> c !in chain
  {
    var t := Entries(FatOf(disk, b));
    forall i | 0 <= i < |chain|
      ensures 2 <= chain[i] < MaxClusters(b) && t[chain[i]] == 0
    {
    }
    FreshChain(t, MaxClusters(b), fs.chains, chain);
    ChainsGrow(t, Entries(FatOf(d, b)), MaxClusters(b), fs.chains, chain);
  }

  lemma OrphanStep(disk: Disk, d: Disk, b: Bpb, fs: Fs, chain: seq<nat>)
    requires Represents(disk, b, fs) && Orphans(disk, d, b, chain)
    ensures Represents(d, b, Fs(fs.chains + [chain], fs.files))
  {
    var fs' := Fs(fs.chains + [chain], fs.files);
    TableAfter(disk, d, b, fs, chain);
    RootAfterAlloc(disk, d, b);
    SlotCount(disk, d, b);
    DataAfterAlloc(disk, d, b, chain);
    forall k | 0 <= k < |fs'.files|
      ensures SlotOk(d, b, fs', k)
    {
      assert SlotOk(disk, b, fs, k);
      SlotStays(disk, d, b, fs, fs', chain, k);
    }
  }

  lemma DataAfterAlloc(disk: Disk, d: Disk, b: Bpb, chain: seq<nat>)
    requires Usable(b) && Clusters(chain) && SameOutsideFats(disk, d, b)
    ensures SameOtherClusters(disk, d, b, chain)
  {
    Regions(b);
  }

  lemma StoreStep(disk: Disk, d: Disk, b: Bpb, fs: Fs, chain: seq<nat>, k: nat, name: seq<byte>, data: seq<byte>)
    requires Represents(disk, b, fs) && 0 !in name && |data| < 0x1_0000_0000
    requires Stores(disk, d, b, chain, k, name, data) && |chain| == ClustersNeeded(b, |data|)
    requires SlotFor(fs.files, Slots(disk, b), 0) == Some(k) && k <= |fs.files|
    ensures Represents(d, b, Fs(fs.chains + [chain], Replace(fs.files, k, File(FormatName(name), |fs.chains|, data))))
  {
    hide FormatName, DirEntry, ChainsOk, FatOf, Entries, Stored, SlotFor, ClustersNeeded, Slots, Slot, TableGrew, Increasing,
         MaxClusters;
    var f := File(FormatName(name), |fs.chains|, data);
    var fs' := Fs(fs.chains + [chain], Replace(fs.files, k, f));
    TableAfter(disk, d, b, fs, chain);
    SlotCount(disk, d, b);
    SlotFits(disk, b, fs.files, k);
    forall i | 0 <= i < |fs'.files|
      ensures SlotOk(d, b, fs', i)
    {
      if i == k {
        FirstNameByte(name);
        assert fs'.chains[|fs.chains|] == chain;
      } else {
        assert SlotOk(disk, b, fs, i);
        SlotStays(disk, d, b, fs, fs', chain, i);
      }
    }
    forall i | 0 <= i < |fs.files|
      ensures fs.files[i].owner < |fs.chains|
    {
      assert SlotOk(disk, b, fs, i);
    }
    OwnersDiffer(fs, k, f);
    hide SlotOk;
    assert forall j :: |fs'.files| <= j < Slots(d, b) ==> Slot(d, b, j) == Slot(disk, b, j);
  }

  lemma SlotFits(disk: Disk, b: Bpb, files: seq<File>, k: nat)
    requires Names(files) && |files| <= Slots(disk, b) && SlotFor(files, Slots(disk, b), 0) == Some(k)
    ensures k < Slots(disk, b)
  {
    SlotForBound(files, Slots(disk, b), 0);
    SlotForRoom(files, Slots(disk, b), 0);
  }

  lemma SlotForRoom(files: seq<File>, slots: nat, k: nat)
    requires Names(files) && |files| <= slots
    ensures var r := SlotFor(files, slots, k); r.Some? ==> r.value < slots
    decreases |files| - k
  {
    if k < |files| { SlotForRoom(files, slots, k + 1); }
  }

  lemma OwnersDiffer(fs: Fs, k: nat, f: File)
    requires k <= |fs.files| && f.owner == |fs.chains|
    requires forall i :: 0 <= i < |fs.files| ==> fs.files[i].owner < |fs.chains|
    requires forall i, j :: 0 <= i < j < |fs.files| ==> fs.files[i].owner != fs.files[j].owner
    ensures var files := Replace(fs.files, k, f);
            forall i, j :: 0 <= i < j < |files| ==> files[i].owner != files[j].owner
  {
  }

  /** One call of fat12_write_file keeps disk and model in step and returns what the model says. */
  lemma WriteRefines(disk: Disk, b: Bpb, fs: Fs, op: Op)
    requires Represents(disk, b, fs) && Callable(op)
    ensures var r := WriteFile(disk, b, op.name, op.data, op.stack);
            var m := WriteModel(fs, b, Slots(disk, b), op.name, op.data);
            Represents(r.0, b, m.0) && r.1 == m.1
  {
    var count := ClustersNeeded(b, |op.data|);
    var (d, r) := WriteFile(disk, b, op.name, op.data, op.stack);
    WriteFileEffect(disk, b, op.name, op.data, op.stack);
    AllocAgrees(disk, b, fs.chains, count);
    SlotAgrees(disk, b, fs, 0);
    SlotForBound(fs.files, Slots(disk, b), 0);
    var chain := AllocChain(disk, b, count);
    if r == -3 {
      OrphanStep(disk, d, b, fs, chain);
    } else if r == 0 {
      StoreStep(disk, d, b, fs, chain, FindSlot(disk, b, 0).value, op.name, op.data);
    }
  }

  /** Every run of writes refines the model. */
  lemma {:induction false} RunRefines(disk: Disk, b: Bpb, fs: Fs, ops: seq<Op>)
    requires Usable(b) && Represents(disk, b, fs)
    requires AllCallable(ops)
    ensures Represents(RunDisk(disk, b, ops), b, RunModel(fs, b, Slots(disk, b), ops))
    decreases |ops|
  {
    if ops != [] {
      var front, op := ops[..|ops| - 1], ops[|ops| - 1];
      RunRefines(disk, b, fs, front);
      SlotCount(disk, RunDisk(disk, b, front), b);
      WriteRefines(RunDisk(disk, b, front), b, RunModel(fs, b, Slots(disk, b), front), op);
    }
  }

  // ---- Reading in a represented state ----

  /** Reading refines the model: the scan finds the first file of that name, and its contents come
      back exactly when kmalloc accepts the size, the cluster count did not overflow and the last
      cluster of its chain is on the device. */
  lemma ReadRefines(disk: Disk, b: Bpb, fs: Fs, name: seq<byte>, heapHasRoom: bool, stack: seq<byte>)
    requires Represents(disk, b, fs) && 0 !in name && |stack| == FAT_BUFFER
    ensures var r := ReadFile(disk, b, name, heapHasRoom, stack);
            match FindModel(fs.files, FormatName(name), 0)
            case None => r == None
            case Some(k) =>
              && k < |fs.files|
              && var f := fs.files[k];
                 var chain := if f.owner < |fs.chains| then fs.chains[f.owner] else [];
                 && chain != [] && chain[|chain| - 1] >= 2
                 && (r == Some((f.data, |f.data|)) <==>
                       1 <= |f.data| <= 0x1000_0000 && heapHasRoom
                       && CeilClusters(b, |f.data|) < 0x1_0000 && OnDevice(disk, b, chain[|chain| - 1]))
  {
    var fname := FormatName(name);
    FirstNameByte(name);
    FindAgrees(disk, b, fs, fname, 0);
    var k := FindModel(fs.files, fname, 0);
    FindModelBound(fs.files, fname, 0);
    if k.Some? {
      ReadRepresented(disk, b, fs, k.value, heapHasRoom, stack);
    }
  }

  lemma {:induction false} FindModelBound(files: seq<File>, fname: seq<byte>, k: nat)
    requires Names(files)
    ensures var r := FindModel(files, fname, k); r.Some? ==> k <= r.value < |files| && files[r.value].name == fname
    decreases |files| - k
  {
    if k < |files| { FindModelBound(files, fname, k + 1); }
  }

  lemma ReadRepresented(disk: Disk, b: Bpb, fs: Fs, k: nat, heapHasRoom: bool, stack: seq<byte>)
    requires Represents(disk, b, fs) && k < |fs.files| && |stack| == FAT_BUFFER
    ensures SlotOk(disk, b, fs, k)
    ensures var f := fs.files[k];
            var chain := fs.chains[f.owner];
            ReadSlot(disk, b, k, heapHasRoom, stack) == Some((f.data, |f.data|)) <==>
              1 <= |f.data| <= 0x1000_0000 && heapHasRoom
              && CeilClusters(b, |f.data|) < 0x1_0000 && OnDevice(disk, b, chain[|chain| - 1])
  {
    assert SlotOk(disk, b, fs, k);
    var f := fs.files[k];
    var chain := fs.chains[f.owner];
    assert ChainOk(Entries(FatOf(disk, b)), MaxClusters(b), chain);
    ReadSlotWith(disk, b, k, f.name, chain[0], |f.data|, heapHasRoom, stack);
    if |f.data| >= 1 {
      hide Slot, Represents, SlotOk, Stored, DirEntry, Entries, IsChain, Increasing, ReadChain, ReadSlot, FatOf, MaxClusters;
      ReadChained(disk, b, chain, f.data, stack);
      assert f.data + Zeros(0) == f.data;
    }
  }

  /** What a chain that holds `data` gives back. */
  lemma ReadChained(disk: Disk, b: Bpb, chain: seq<nat>, data: seq<byte>, stack: seq<byte>)
    requires Vol(disk, b) && |stack| == FAT_BUFFER && 1 <= |data| < 0x1_0000_0000
    requires ChainOk(Entries(FatOf(disk, b)), MaxClusters(b), chain) && Clusters(chain)
    requires |chain| == ClustersNeeded(b, |data|) && Stored(disk, b, chain, data)
    ensures var r := ReadChain(disk, b, FatBuffer(disk, b, stack), chain[0], |data|);
            && (|data| <= 0x1000_0000 ==>
                  (r == Some(data) <==> CeilClusters(b, |data|) < 0x1_0000 && OnDevice(disk, b, chain[|chain| - 1])))
            && (r != Some(data) ==> r.Some? ==> |r.value| < |data|)
  {
    AllocFollows(FatOf(disk, b), stack[512 * b.fatSize..], chain);
    hide Entries, IsChain, Increasing, Stored, ReadChain, Follows;
    NeededFits(b, chain, |data|);
    ReadNewChain(disk, b, FatBuffer(disk, b, stack), chain, data);
  }
}
