/** init_allocator: the arenas taken from the memory map, and the first free list. */
module HeapInit {
  import opened Options
  import opened HeapModel
  import opened KernelHeap

  /** An entry of the boot loader's memory map, in physical addresses. */
  datatype Entry = Entry(base: nat, length: nat, usable: bool)

  /** The physical range an entry contributes: usable, larger than 1 MiB, above the first MiB, and
      cut off at the end of the paging pool if it meets the pool. */
  function ArenaOf(e: Entry, poolStart: nat, poolEnd: nat): Option<Arena> {
    if !(e.usable && e.length > 0x10_0000 && e.base >= 0x10_0000) then None
    else
      var start := (e.base + 15) / 16 * 16;
      var end := e.base + e.length;
      var from := if start < poolEnd && end > poolStart then poolEnd else start;
      if end <= from + 16 then None else Some(Arena(from, end))
  }

  /** No arena meets the paging pool, and each lies inside its entry. */
  lemma ArenaAvoidsPool(e: Entry, poolStart: nat, poolEnd: nat)
    requires poolStart <= poolEnd
    ensures var a := ArenaOf(e, poolStart, poolEnd);
            a.Some? ==> (e.base <= a.value.start < a.value.end == e.base + e.length
                         && (a.value.end <= poolStart || poolEnd <= a.value.start))
  {
  }

  /** Which bytes of an entry the heap gets: all of a usable entry of more than 1 MiB that starts above the
      first MiB, or what lies above the paging pool when it meets the pool, unless that is 16 bytes or less. */
  lemma EntryBytes(e: Entry, poolStart: nat, poolEnd: nat, p: nat)
    requires e.base % 4096 == 0
    ensures var a, end := ArenaOf(e, poolStart, poolEnd), e.base + e.length;
            var meets := e.base < poolEnd && end > poolStart;
            a.Some? && a.value.start <= p < a.value.end
            <==> && e.usable && e.length > 0x10_0000 && e.base >= 0x10_0000 && e.base <= p < end
                 && (meets ==> poolEnd <= p && poolEnd + 16 < end)
  {
    Sixteenths(e.base);
  }

  lemma Sixteenths(base: nat)
    requires base % 4096 == 0
    ensures (base + 15) / 16 * 16 == base
  {
    assert base == 16 * (256 * (base / 4096));
    Upwards(256 * (base / 4096));
  }

  lemma Upwards(n: nat)
    ensures (16 * n + 15) / 16 == n
  {
  }

  /** The arenas in the direct map. */
  function Arenas(entries: seq<Entry>, poolStart: nat, poolEnd: nat, offset: nat): seq<Arena> {
    if entries == [] then []
    else
      var front := Arenas(entries[..|entries| - 1], poolStart, poolEnd, offset);
      var a := ArenaOf(entries[|entries| - 1], poolStart, poolEnd);
      if a == None then front else front + [Arena(a.value.start + offset, a.value.end + offset)]
  }

  /** The boot protocol: entries are page aligned and do not overlap, and so are the pool's ends. */
  ghost predicate MemoryMap(entries: seq<Entry>, poolStart: nat, poolEnd: nat, offset: nat) {
    && poolStart <= poolEnd && poolEnd % 16 == 0 && offset % 16 == 0
    && (forall i :: 0 <= i < |entries| ==> entries[i].base % 4096 == 0 && entries[i].length % 4096 == 0)
    && (forall i, j :: 0 <= i < j < |entries| ==> Disjoint(entries[i], entries[j]))
  }

  predicate Disjoint(e: Entry, f: Entry) {
    e.base + e.length <= f.base || f.base + f.length <= e.base
  }

  /** All words of the arenas can be addressed. */
  ghost predicate Mapped(mem: Words, arenas: seq<Arena>) {
    forall i, w :: 0 <= i < |arenas| && arenas[i].start <= w < arenas[i].end && w % 8 == 0 ==> w in mem
  }

  // ---- One more arena ----

  ghost predicate OutsideArenas(arenas: seq<Arena>, a: Arena) {
    forall i :: 0 <= i < |arenas| ==> arenas[i].end <= a.start || a.end <= arenas[i].start
  }

  function AddBlock(h: Heap, a: Arena): Heap
    requires a.start + HEADER <= a.end
  {
    Heap(h.blocks[a.start := Block(a.end - a.start - HEADER, Live)], h.free)
  }

  /** Blocks lie in arenas, so a new arena meets none of them. */
  lemma BlocksAvoid(h: Heap, arenas: seq<Arena>, a: Arena, b: nat)
    requires Good(h, arenas) && OutsideArenas(arenas, a) && a.start < a.end && b in h.blocks
    ensures End(h.blocks, b) <= a.start || a.end <= b
  {
    if b < a.end && a.start < End(h.blocks, b) {
      var p := if b < a.start then a.start else b;
      OwnedInArena(h, arenas, b, p);
      assert false;
    }
  }

  lemma OwnedInArena(h: Heap, arenas: seq<Arena>, b: nat, p: nat)
    requires Covers(h.blocks, arenas) && b in h.blocks && InBlock(h.blocks, b, p)
    ensures InArenas(arenas, p)
  {
    assert Owned(h.blocks, p);
  }

  lemma AddArena(h: Heap, arenas: seq<Arena>, a: Arena)
    requires Good(h, arenas) && OutsideArenas(arenas, a)
    requires a.start > 0 && a.start % 16 == 0 && a.end % 16 == 0 && a.end > a.start + 16
    ensures a.start !in h.blocks
    ensures Good(AddBlock(h, a), arenas + [a])
  {
    var h' := AddBlock(h, a);
    forall b | b in h.blocks
      ensures b != a.start && (End(h.blocks, b) <= a.start || a.end <= b)
    {
      BlocksAvoid(h, arenas, a, b);
    }
    AddCovers(h, arenas, a);
    ListElements(h.blocks, h.free);
    assert Aligned(h'.blocks) && Apart(h'.blocks);
    assert FreeList(h'.blocks, h'.free);
  }

  lemma AddCovers(h: Heap, arenas: seq<Arena>, a: Arena)
    requires Covers(h.blocks, arenas) && a.start + HEADER <= a.end && a.start !in h.blocks
    ensures Covers(AddBlock(h, a).blocks, arenas + [a])
  {
    var blocks', all := AddBlock(h, a).blocks, arenas + [a];
    forall p: nat
      ensures InArenas(all, p) <==> Owned(blocks', p)
    {
      MoreArenas(arenas, a, p);
      if Owned(h.blocks, p) {
        var b :| b in h.blocks && InBlock(h.blocks, b, p);
        assert InBlock(blocks', b, p);
      }
      if Owned(blocks', p) {
        var b :| b in blocks' && InBlock(blocks', b, p);
        assert b != a.start ==> InBlock(h.blocks, b, p);
      }
      assert a.start <= p < a.end ==> InBlock(blocks', a.start, p);
    }
  }

  lemma MoreArenas(arenas: seq<Arena>, a: Arena, p: nat)
    ensures InArenas(arenas + [a], p) <==> InArenas(arenas, p) || a.start <= p < a.end
  {
    var all := arenas + [a];
    if InArenas(arenas, p) {
      var i :| 0 <= i < |arenas| && arenas[i].start <= p < arenas[i].end;
      assert all[i] == arenas[i];
    }
    assert all[|arenas|] == a;
  }

  /** Writing the header of a new block disturbs no old one. */
  lemma AddThreaded(mem: Words, mem': Words, head: nat, h: Heap, arenas: seq<Arena>, a: Arena)
    requires Good(h, arenas) && Threaded(mem, head, h) && OutsideArenas(arenas, a)
    requires a.start > 0 && a.start % 16 == 0 && a.end > a.start + 16 && a.start !in h.blocks
    requires a.start in mem && a.start + 8 in mem
    requires mem' == mem[a.start := a.end - a.start - HEADER][a.start + 8 := 0]
    ensures Threaded(mem', head, AddBlock(h, a))
  {
    var h' := AddBlock(h, a);
    forall i | 0 <= i < |h'.free|
      ensures Node(mem', h'.blocks, h'.free[i], At(h'.free, i + 1))
    {
      NodeAt(mem, head, h, i);
      BlocksAvoid(h, arenas, a, h.free[i]);
    }
    forall b | b in h'.blocks && h'.blocks[b].status == Live
      ensures Header(mem', b, h'.blocks[b].size)
    {
      if b != a.start { BlocksAvoid(h, arenas, a, b); }
    }
    ThreadedIntro(mem', head, h');
  }

  lemma AddBacked(mem: Words, mem': Words, h: Heap, a: Arena)
    requires Backed(mem, h.blocks) && a.start + HEADER <= a.end && a.start !in h.blocks
    requires forall w :: w in mem ==> w in mem'
    requires forall w :: a.start <= w < a.end && w % 8 == 0 ==> w in mem'
    ensures Backed(mem', AddBlock(h, a).blocks)
  {
    var blocks' := AddBlock(h, a).blocks;
    forall b, w | b in blocks' && b <= w < End(blocks', b) && w % 8 == 0
      ensures w in mem'
    {
      assert b != a.start ==> b in h.blocks && End(blocks', b) == End(h.blocks, b);
    }
  }

  lemma ArenasApart(entries: seq<Entry>, poolStart: nat, poolEnd: nat, offset: nat, n: nat)
    requires MemoryMap(entries, poolStart, poolEnd, offset) && n < |entries|
    requires ArenaOf(entries[n], poolStart, poolEnd).Some?
    ensures var a := ArenaOf(entries[n], poolStart, poolEnd).value;
            OutsideArenas(Arenas(entries[..n], poolStart, poolEnd, offset), Arena(a.start + offset, a.end + offset))
  {
    EarlierArenas(entries, poolStart, poolEnd, offset, n, n);
  }

  lemma {:induction false} EarlierArenas(entries: seq<Entry>, poolStart: nat, poolEnd: nat, offset: nat, m: nat, n: nat)
    requires MemoryMap(entries, poolStart, poolEnd, offset) && m <= n < |entries|
    requires ArenaOf(entries[n], poolStart, poolEnd).Some?
    ensures var a := ArenaOf(entries[n], poolStart, poolEnd).value;
            OutsideArenas(Arenas(entries[..m], poolStart, poolEnd, offset), Arena(a.start + offset, a.end + offset))
    decreases m
  {
    if m > 0 {
      var q := entries[..m];
      assert q[..|q| - 1] == entries[..m - 1];
      EarlierArenas(entries, poolStart, poolEnd, offset, m - 1, n);
      ArenaAvoidsPool(entries[m - 1], poolStart, poolEnd);
      ArenaAvoidsPool(entries[n], poolStart, poolEnd);
      assert Disjoint(entries[m - 1], entries[n]);
      hide ArenaOf;
    }
  }

  lemma ArenaShape(entries: seq<Entry>, poolStart: nat, poolEnd: nat, offset: nat, n: nat)
    requires MemoryMap(entries, poolStart, poolEnd, offset) && n < |entries|
    requires ArenaOf(entries[n], poolStart, poolEnd).Some?
    ensures var a := ArenaOf(entries[n], poolStart, poolEnd).value;
            && a.start % 16 == 0 && a.end % 16 == 0 && a.end > a.start + 16 && a.start > 0
            && (a.start + offset) % 16 == 0 && (a.end + offset) % 16 == 0
  {
    var e := entries[n];
    assert e.base % 4096 == 0 && e.length % 4096 == 0;
    hide MemoryMap;
    RoundedStart(e.base);
    RoundedStart(e.length);
    Sum16(e.base, e.length);
    var a := ArenaOf(e, poolStart, poolEnd).value;
    assert a.start % 16 == 0 && a.end % 16 == 0 && a.end > a.start + 16 && a.start > 0;
    hide ArenaOf;
    Sum16(a.start, offset);
    Sum16(a.end, offset);
  }

  lemma RoundedStart(base: nat)
    requires base % 4096 == 0
    ensures (base + 15) / 16 * 16 == base && base % 16 == 0
  {
  }

  lemma Sum16(x: nat, y: nat)
    requires x % 16 == 0 && y % 16 == 0
    ensures (x + y) % 16 == 0
  {
  }

  predicate ClearOf(a: Arena, from: nat, to: nat) {
    a.end <= from || to <= a.start
  }

  /** Every arena of the memory map, in the direct map, lies clear of the paging pool. */
  lemma {:induction false} ArenasAvoidPool(entries: seq<Entry>, poolStart: nat, poolEnd: nat, offset: nat)
    requires poolStart <= poolEnd
    ensures forall a :: a in Arenas(entries, poolStart, poolEnd, offset) ==> ClearOf(a, poolStart + offset, poolEnd + offset)
    decreases |entries|
  {
    if entries != [] {
      var front := Arenas(entries[..|entries| - 1], poolStart, poolEnd, offset);
      var a := ArenaOf(entries[|entries| - 1], poolStart, poolEnd);
      ArenasAvoidPool(entries[..|entries| - 1], poolStart, poolEnd, offset);
      ArenaAvoidsPool(entries[|entries| - 1], poolStart, poolEnd);
      hide ArenaOf;
    }
  }

  lemma OutsidePool(arenas: seq<Arena>, from: nat, to: nat, p: nat)
    requires forall a :: a in arenas ==> ClearOf(a, from, to)
    requires InArenas(arenas, p)
    ensures p < from || to <= p
  {
    var i :| 0 <= i < |arenas| && arenas[i].start <= p < arenas[i].end;
    assert arenas[i] in arenas;
  }

  /** Heap blocks never overlap the paging pool, in any state of the heap. */
  lemma BlocksAvoidPool(h: Heap, entries: seq<Entry>, poolStart: nat, poolEnd: nat, offset: nat, b: nat)
    requires poolStart < poolEnd && Good(h, Arenas(entries, poolStart, poolEnd, offset)) && b in h.blocks
    ensures End(h.blocks, b) <= poolStart + offset || poolEnd + offset <= b
  {
    var arenas := Arenas(entries, poolStart, poolEnd, offset);
    ArenasAvoidPool(entries, poolStart, poolEnd, offset);
    if b < poolEnd + offset && poolStart + offset < End(h.blocks, b) {
      var p := if b < poolStart + offset then poolStart + offset else b;
      OwnedInArena(h, arenas, b, p);
      OutsidePool(arenas, poolStart + offset, poolEnd + offset, p);
      assert false;
    }
  }

  /** The arena of an entry is among the arenas. */
  lemma {:induction false} ArenaListed(entries: seq<Entry>, poolStart: nat, poolEnd: nat, offset: nat, i: nat)
    requires i < |entries| && ArenaOf(entries[i], poolStart, poolEnd).Some?
    ensures var a := ArenaOf(entries[i], poolStart, poolEnd).value;
            Arena(a.start + offset, a.end + offset) in Arenas(entries, poolStart, poolEnd, offset)
    decreases |entries|
  {
    hide ArenaOf;
    if i < |entries| - 1 {
      ArenaListed(entries[..|entries| - 1], poolStart, poolEnd, offset, i);
    }
  }

  lemma ArenaMapped(mem: Words, entries: seq<Entry>, poolStart: nat, poolEnd: nat, offset: nat, i: nat)
    requires i < |entries| && ArenaOf(entries[i], poolStart, poolEnd).Some?
    requires Mapped(mem, Arenas(entries, poolStart, poolEnd, offset))
    ensures var a := ArenaOf(entries[i], poolStart, poolEnd).value;
            forall w :: a.start + offset <= w < a.end + offset && w % 8 == 0 ==> w in mem
  {
    ArenaListed(entries, poolStart, poolEnd, offset, i);
  }

  /** One free block for each arena, header and payload filling it, and no other block. */
  ghost predicate OneFreeEach(blocks: Blocks, arenas: seq<Arena>) {
    && (forall a :: a in arenas ==> a.start + 16 <= a.end && a.start in blocks && blocks[a.start] == Block(a.end - a.start - 16, Free))
    && (forall b :: b in blocks ==> exists a :: a in arenas && a.start == b)
  }

  /** After `i` entries: no more free blocks than that, and all blocks free while insertion cannot give up. */
  ghost predicate SetUp(h: Heap, arenas: seq<Arena>, i: nat) {
    |h.free| <= i && (i <= 1002 ==> OneFreeEach(h.blocks, arenas))
  }

  lemma SetUpSame(h: Heap, arenas: seq<Arena>, i: nat)
    requires SetUp(h, arenas, i)
    ensures SetUp(h, arenas, i + 1)
  {
  }

  lemma SetUpOne(h: Heap, arenas: seq<Arena>, v: Arena, i: nat)
    requires SetUp(h, arenas, i) && v.start !in h.blocks && v.start + 16 <= v.end
    ensures SetUp(Release(AddBlock(h, v), v.start), arenas + [v], i + 1)
  {
    var h' := Release(AddBlock(h, v), v.start);
    assert forall a :: a in arenas + [v] <==> a in arenas || a == v;
    if i + 1 <= 1002 {
      assert h'.blocks == h.blocks[v.start := Block(v.end - v.start - 16, Free)];
      hide Release, AddBlock;
      forall b | b in h'.blocks
        ensures exists a :: a in arenas + [v] && a.start == b
      {
        if b == v.start { assert v in arenas + [v]; }
      }
    }
  }

  /** The block set-up loop of init_allocator. With at most 1002 entries every arena starts as one free
      block. */
  method InitBlocks(al: Allocator, entries: seq<Entry>, poolStart: nat, poolEnd: nat)
    requires al.heap == Heap(map[], []) && al.arenas == []
    requires MemoryMap(entries, poolStart, poolEnd, al.hhdmOffset)
    requires Mapped(al.mem, Arenas(entries, poolStart, poolEnd, al.hhdmOffset))
    modifies al
    ensures al.Valid() && al.arenas == Arenas(entries, poolStart, poolEnd, al.hhdmOffset)
    ensures |entries| <= 1002 ==> OneFreeEach(al.heap.blocks, al.arenas)
  {
    al.freeListHead := 0;
    ghost var keys, offset := al.mem.Keys, al.hhdmOffset;
    EmptyHeap(al);
    assert SetUp(al.heap, al.arenas, 0);
    ArenasOfFirst(entries, poolStart, poolEnd, offset, 0);
    hide *;
    for i := 0 to |entries|
      invariant al.Valid() && SetUp(al.heap, al.arenas, i)
      invariant Mapped(al.mem, Arenas(entries, poolStart, poolEnd, al.hhdmOffset))
      invariant al.arenas == Arenas(entries[..i], poolStart, poolEnd, al.hhdmOffset)
    {
      AddEntry(al, entries, poolStart, poolEnd, i);
    }
    assert entries[..|entries|] == entries;
    AllSetUp(al.heap, al.arenas, |entries|);
  }

  /** One turn of that loop. */
  method AddEntry(al: Allocator, entries: seq<Entry>, poolStart: nat, poolEnd: nat, i: nat)
    requires al.Valid() && i < |entries| && SetUp(al.heap, al.arenas, i)
    requires MemoryMap(entries, poolStart, poolEnd, al.hhdmOffset)
    requires Mapped(al.mem, Arenas(entries, poolStart, poolEnd, al.hhdmOffset))
    requires al.arenas == Arenas(entries[..i], poolStart, poolEnd, al.hhdmOffset)
    modifies al
    ensures al.Valid() && SetUp(al.heap, al.arenas, i + 1)
    ensures Mapped(al.mem, Arenas(entries, poolStart, poolEnd, al.hhdmOffset))
    ensures al.arenas == Arenas(entries[..i + 1], poolStart, poolEnd, al.hhdmOffset)
  {
    hide *;
    ghost var mem, h, arenas, offset := al.mem, al.heap, al.arenas, al.hhdmOffset;
    ArenasOfFirst(entries, poolStart, poolEnd, offset, i + 1);
    SetUpSame(h, arenas, i);
    var a := ArenaOf(entries[i], poolStart, poolEnd);
    if a.Some? {
      ArenaMapped(al.mem, entries, poolStart, poolEnd, offset, i);
      AddOne(al, entries, poolStart, poolEnd, i, a.value);
      MappedSame(mem, al.mem, Arenas(entries, poolStart, poolEnd, offset));
      SetUpOne(h, arenas, Arena(a.value.start + offset, a.value.end + offset), i);
    }
  }

  lemma AllSetUp(h: Heap, arenas: seq<Arena>, i: nat)
    requires SetUp(h, arenas, i)
    ensures i <= 1002 ==> OneFreeEach(h.blocks, arenas)
  {
  }

  lemma EmptyHeap(al: Allocator)
    requires al.heap == Heap(map[], []) && al.arenas == [] && al.freeListHead == 0
    ensures al.Valid()
  {
  }

  lemma ArenasOfFirst(entries: seq<Entry>, poolStart: nat, poolEnd: nat, offset: nat, n: nat)
    requires n <= |entries|
    ensures n == 0 ==> Arenas(entries[..n], poolStart, poolEnd, offset) == []
    ensures n > 0 ==>
              var a := ArenaOf(entries[n - 1], poolStart, poolEnd);
              Arenas(entries[..n], poolStart, poolEnd, offset)
              == Arenas(entries[..n - 1], poolStart, poolEnd, offset)
                 + (if a == None then [] else [Arena(a.value.start + offset, a.value.end + offset)])
  {
    hide ArenaOf;
    if n > 0 {
      assert entries[..n][..n - 1] == entries[..n - 1];
    }
  }

  lemma MappedSame(mem: Words, mem': Words, arenas: seq<Arena>)
    requires Mapped(mem, arenas) && mem'.Keys == mem.Keys
    ensures Mapped(mem', arenas)
  {
    assert forall w :: w in mem <==> w in mem';
  }

  method AddOne(al: Allocator, ghost entries: seq<Entry>, ghost poolStart: nat, ghost poolEnd: nat, ghost i: nat, a: Arena)
    requires al.Valid() && i < |entries|
    requires MemoryMap(entries, poolStart, poolEnd, al.hhdmOffset)
    requires ArenaOf(entries[i], poolStart, poolEnd) == Some(a)
    requires al.arenas == Arenas(entries[..i], poolStart, poolEnd, al.hhdmOffset)
    requires forall w :: a.start + al.hhdmOffset <= w < a.end + al.hhdmOffset && w % 8 == 0 ==> w in al.mem
    modifies al
    ensures al.Valid() && al.mem.Keys == old(al.mem).Keys
    ensures al.arenas == old(al.arenas) + [Arena(a.start + al.hhdmOffset, a.end + al.hhdmOffset)]
    ensures var v := Arena(a.start + al.hhdmOffset, a.end + al.hhdmOffset);
            && v.start + 16 <= v.end && v.start !in old(al.heap).blocks
            && al.heap == Release(AddBlock(old(al.heap), v), v.start)
  {
    ghost var v := Arena(a.start + al.hhdmOffset, a.end + al.hhdmOffset);
    var block := a.start + al.hhdmOffset;
    ghost var mem0 := al.mem;
    NewArena(al.mem, al.heap, al.arenas, entries, poolStart, poolEnd, al.hhdmOffset, i, a);
    hide Good, Threaded, Backed, OutsideArenas, MemoryMap, ArenaOf, Arenas;
    al.mem := al.mem[block := a.end - a.start - 16][block + 8 := 0];
    AddThreaded(mem0, al.mem, al.freeListHead, al.heap, al.arenas, v);
    AddBacked(mem0, al.mem, al.heap, v);
    al.heap := AddBlock(al.heap, v);
    al.arenas := al.arenas + [v];
    al.InsertFreeBlockSorted(block);
  }

  lemma NewArena(mem: Words, h: Heap, arenas: seq<Arena>, entries: seq<Entry>, poolStart: nat, poolEnd: nat, offset: nat, i: nat, a: Arena)
    requires Good(h, arenas) && i < |entries| && MemoryMap(entries, poolStart, poolEnd, offset)
    requires ArenaOf(entries[i], poolStart, poolEnd) == Some(a)
    requires arenas == Arenas(entries[..i], poolStart, poolEnd, offset)
    requires forall w :: a.start + offset <= w < a.end + offset && w % 8 == 0 ==> w in mem
    ensures var v := Arena(a.start + offset, a.end + offset);
            && OutsideArenas(arenas, v) && v.start > 0 && v.start % 16 == 0 && v.end > v.start + 16
            && v.start !in h.blocks && v.start in mem && v.start + 8 in mem
            && Good(AddBlock(h, v), arenas + [v])
  {
    var v := Arena(a.start + offset, a.end + offset);
    hide Good, OutsideArenas, ArenaOf, Arenas, AddBlock;
    ArenaShape(entries, poolStart, poolEnd, offset, i);
    ArenasApart(entries, poolStart, poolEnd, offset, i);
    hide MemoryMap;
    AddArena(h, arenas, v);
    HalfAligned(v.start);
  }
}
