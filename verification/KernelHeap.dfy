/** kmalloc and kfree on memory words: block headers, the intrusive free list and the zeroing of
    payloads, proved to do to the words what HeapModel does to the partition. */
module KernelHeap {
  import opened HeapModel

  /** Memory as 64-bit words by address; only addresses that are multiples of 8 occur. */
  type Words = map<nat, nat>

  /** The `i`-th element of the list, or NULL behind its end. */
  function At(free: seq<nat>, i: nat): nat {
    if i < |free| then free[i] else 0
  }

  /** The words a block occupies exist. */
  ghost predicate Backed(mem: Words, blocks: Blocks) {
    forall a, w :: a in blocks && a <= w < End(blocks, a) && w % 8 == 0 ==> w in mem
  }

  /** A block's header: its size and, behind it, room for the next pointer. */
  ghost predicate Header(mem: Words, a: nat, size: nat) {
    a in mem && a + 8 in mem && mem[a] == size
  }

  /** A list element: its header and the pointer behind it. */
  ghost predicate Node(mem: Words, blocks: Blocks, a: nat, next: nat) {
    a in blocks && Header(mem, a, blocks[a].size) && mem[a + 8] == next
  }

  /** The free list is threaded through the headers, and live blocks still carry their size. */
  ghost predicate Threaded(mem: Words, head: nat, h: Heap) {
    && head == At(h.free, 0)
    && (forall i {:trigger Node(mem, h.blocks, h.free[i], At(h.free, i + 1))} ::
          0 <= i < |h.free| ==> Node(mem, h.blocks, h.free[i], At(h.free, i + 1)))
    && LiveHeaders(mem, h.blocks)
  }

  ghost predicate LiveHeaders(mem: Words, blocks: Blocks) {
    forall a :: a in blocks && blocks[a].status == Live ==> Header(mem, a, blocks[a].size)
  }

  /** A payload word of a live block. */
  predicate LiveWord(blocks: Blocks, w: nat) {
    exists a :: a in blocks && blocks[a].status == Live && a + HEADER <= w < End(blocks, a)
  }

  /** Outside the block at `a` and the link word nothing changed. */
  ghost predicate OnlyBlockAndLink(mem: Words, mem': Words, h: Heap, a: nat, link: nat)
    requires a in h.blocks
  {
    && mem'.Keys == mem.Keys
    && forall w :: w in mem && !InBlock(h.blocks, a, w) && w != link ==> mem'[w] == mem[w]
  }

  /** The word that holds the pointer to the `k`-th list element; 0 stands for the head variable. */
  function LinkOf(free: seq<nat>, k: nat): nat
    requires k <= |free|
  {
    if k == 0 then 0 else free[k - 1] + 8
  }

  ghost predicate LinkSet(mem': Words, head: nat, head': nat, free: seq<nat>, k: nat, value: nat)
    requires k <= |free|
  {
    if k == 0 then head' == value
    else head' == head && LinkOf(free, k) in mem' && mem'[LinkOf(free, k)] == value
  }

  // ---- Headers of other blocks are not disturbed ----

  lemma OtherHeader(mem: Words, mem': Words, h: Heap, a: nat, link: nat, b: nat)
    requires Aligned(h.blocks) && Apart(h.blocks) && a in h.blocks && b in h.blocks && a != b
    requires OnlyBlockAndLink(mem, mem', h, a, link)
    requires link == 0 || link % 16 == 8
    requires Header(mem, b, h.blocks[b].size)
    ensures Header(mem', b, h.blocks[b].size)
    ensures b + 8 != link ==> mem'[b + 8] == mem[b + 8]
  {
    assert !InBlock(h.blocks, a, b) && !InBlock(h.blocks, a, b + 8) by {
      assert a < b ==> End(h.blocks, a) <= b;
      assert b < a ==> End(h.blocks, b) <= a;
    }
  }

  lemma LinkWord(h: Heap, k: nat)
    requires Aligned(h.blocks) && FreeList(h.blocks, h.free) && k <= |h.free|
    ensures LinkOf(h.free, k) == 0 || LinkOf(h.free, k) % 16 == 8
  {
    ListElements(h.blocks, h.free);
  }

  lemma GoodParts(h: Heap, arenas: seq<Arena>)
    requires Good(h, arenas)
    ensures Aligned(h.blocks) && Apart(h.blocks) && FreeList(h.blocks, h.free) && Ascending(h.free) && Listed(h)
  {
    ListElements(h.blocks, h.free);
  }

  lemma LiveNotListed(h: Heap, arenas: seq<Arena>, a: nat)
    requires Good(h, arenas) && a in h.blocks && h.blocks[a].status == Live
    ensures forall i :: 0 <= i < |h.free| ==> h.free[i] != a
  {
    ListElements(h.blocks, h.free);
  }

  lemma DistinctElements(free: seq<nat>, i: nat, j: nat)
    requires Ascending(free) && i < |free| && j < |free| && i != j
    ensures free[i] != free[j]
  {
  }

  /** A list element other than the block at `a` stays as it is, but for the link that was set. */
  lemma NodeKept(mem: Words, mem': Words, head: nat, h: Heap, arenas: seq<Arena>, a: nat, k: nat, i: nat)
    requires Good(h, arenas) && Threaded(mem, head, h)
    requires a in h.blocks && k <= |h.free| && i < |h.free| && h.free[i] != a
    requires OnlyBlockAndLink(mem, mem', h, a, LinkOf(h.free, k))
    ensures h.free[i] in h.blocks && Header(mem', h.free[i], h.blocks[h.free[i]].size)
    ensures i + 1 != k ==> mem'[h.free[i] + 8] == At(h.free, i + 1)
    ensures i + 1 == k ==> h.free[i] + 8 == LinkOf(h.free, k)
  {
    hide Good, FreeList, Ascending, Apart, Aligned, LiveHeaders, OnlyBlockAndLink;
    GoodParts(h, arenas);
    assert Node(mem, h.blocks, h.free[i], At(h.free, i + 1));
    LinkWord(h, k);
    if k > 0 && i != k - 1 { DistinctElements(h.free, i, k - 1); }
    OtherHeader(mem, mem', h, a, LinkOf(h.free, k), h.free[i]);
  }

  lemma LiveKept(mem: Words, mem': Words, head: nat, h: Heap, arenas: seq<Arena>, a: nat, k: nat, b: nat)
    requires Good(h, arenas) && Threaded(mem, head, h)
    requires a in h.blocks && k <= |h.free| && b in h.blocks && h.blocks[b].status == Live && b != a
    requires OnlyBlockAndLink(mem, mem', h, a, LinkOf(h.free, k))
    ensures Header(mem', b, h.blocks[b].size)
  {
    hide Good, FreeList, Ascending, Apart, Aligned, OnlyBlockAndLink;
    GoodParts(h, arenas);
    LinkWord(h, k);
    OtherHeader(mem, mem', h, a, LinkOf(h.free, k), b);
  }

  // ---- The three ways the list changes ----

  /** Memory, head pointer and heap before and after; the list link that was redirected is the
      `k`-th, and outside the block at `a` nothing else changed. */
  ghost predicate Relinked(mem: Words, mem': Words, head: nat, head': nat, h: Heap, arenas: seq<Arena>, a: nat, k: nat, value: nat) {
    && Good(h, arenas) && Threaded(mem, head, h) && a in h.blocks && k <= |h.free|
    && OnlyBlockAndLink(mem, mem', h, a, LinkOf(h.free, k))
    && LinkSet(mem', head, head', h.free, k, value)
  }

  /** A list element before and after, with its new successor. */
  lemma NodeRelinked(mem: Words, mem': Words, head: nat, head': nat, h: Heap, arenas: seq<Arena>, a: nat, k: nat, value: nat, i: nat)
    requires Relinked(mem, mem', head, head', h, arenas, a, k, value) && i < |h.free| && h.free[i] != a
    ensures Node(mem', h.blocks, h.free[i], if i + 1 == k then value else At(h.free, i + 1))
  {
    NodeKept(mem, mem', head, h, arenas, a, k, i);
  }

  lemma LiveRelinked(mem: Words, mem': Words, head: nat, head': nat, h: Heap, arenas: seq<Arena>, a: nat, k: nat, value: nat, blocks': Blocks)
    requires Relinked(mem, mem', head, head', h, arenas, a, k, value)
    requires forall b :: b in blocks' && blocks'[b].status == Live && b != a ==> b in h.blocks && h.blocks[b] == blocks'[b]
    requires a in blocks' && blocks'[a].status == Live ==> Header(mem', a, blocks'[a].size)
    ensures LiveHeaders(mem', blocks')
  {
    forall b | b in blocks' && blocks'[b].status == Live
      ensures Header(mem', b, blocks'[b].size)
    {
      if b != a { LiveKept(mem, mem', head, h, arenas, a, k, b); }
    }
  }

  /** Assembling the list invariant from its elements. */
  lemma ThreadedIntro(mem: Words, head: nat, h: Heap)
    requires head == At(h.free, 0) && LiveHeaders(mem, h.blocks)
    requires forall i {:trigger Node(mem, h.blocks, h.free[i], At(h.free, i + 1))} ::
               0 <= i < |h.free| ==> Node(mem, h.blocks, h.free[i], At(h.free, i + 1))
    ensures Threaded(mem, head, h)
  {
  }

  lemma RemovedAt(free: seq<nat>, k: nat, i: nat)
    requires k < |free| && i < |free| - 1
    ensures var r, j := free[..k] + free[k + 1..], if i < k then i else i + 1;
            r[i] == free[j] && At(r, i + 1) == if j + 1 == k then At(free, k + 1) else At(free, j + 1)
  {
  }

  lemma InsertedAt(free: seq<nat>, n: nat, a: nat, i: nat)
    requires n <= |free| && i <= |free|
    ensures var r := free[..n] + [a] + free[n..];
            && r[i] == (if i < n then free[i] else if i == n then a else free[i - 1])
            && At(r, i + 1) == if i + 1 < n then At(free, i + 1) else if i + 1 == n then a else At(free, i)
  {
  }

  /** A list element in the new list, given what happened to the list and to block sizes. */
  lemma NodeIn(mem: Words, mem': Words, head: nat, head': nat, h: Heap, arenas: seq<Arena>, a: nat, k: nat, value: nat,
               i: nat, blocks': Blocks, next: nat)
    requires Relinked(mem, mem', head, head', h, arenas, a, k, value) && i < |h.free| && h.free[i] != a
    requires SameSizes(h.blocks, blocks', a)
    requires next == if i + 1 == k then value else At(h.free, i + 1)
    ensures Node(mem', blocks', h.free[i], next)
  {
    NodeRelinked(mem, mem', head, head', h, arenas, a, k, value, i);
  }

  ghost predicate SameSizes(blocks: Blocks, blocks': Blocks, a: nat) {
    forall b :: b in blocks && b != a ==> b in blocks' && blocks'[b].size == blocks[b].size
  }

  lemma SplitFrame(mem: Words, mem': Words, head: nat, head': nat, h: Heap, arenas: seq<Arena>, k: nat, r: nat)
    requires k < |h.free| && h.free[k] in h.blocks && h.blocks[h.free[k]].size >= r + HEADER + MIN_ALLOC
    requires Relinked(mem, mem', head, head', h, arenas, h.free[k], k, h.free[k] + HEADER + r)
    requires Header(mem', h.free[k], r)
    ensures var h' := Take(h, k, r);
            && h'.free == h.free[k := h.free[k] + HEADER + r] && head' == At(h'.free, 0)
            && SameSizes(h.blocks, h'.blocks, h.free[k]) && LiveHeaders(mem', h'.blocks) && Ascending(h.free)
  {
    hide Good, FreeList, Ascending, Apart, Aligned, Owned, OnlyBlockAndLink, LiveHeaders, Listed, Header, Node;
    var a, rest, h' := h.free[k], h.free[k] + HEADER + r, Take(h, k, r);
    GoodParts(h, arenas);
    SplitOwned(h.blocks, h'.blocks, a, r, Live, Free);
    LiveRelinked(mem, mem', head, head', h, arenas, a, k, rest, h'.blocks);
  }

  lemma RemoveFrame(mem: Words, mem': Words, head: nat, head': nat, h: Heap, arenas: seq<Arena>, k: nat, r: nat)
    requires k < |h.free| && h.free[k] in h.blocks && r <= h.blocks[h.free[k]].size < r + HEADER + MIN_ALLOC
    requires Relinked(mem, mem', head, head', h, arenas, h.free[k], k, At(h.free, k + 1))
    requires Header(mem', h.free[k], h.blocks[h.free[k]].size)
    ensures var h' := Take(h, k, r);
            && h'.free == h.free[..k] + h.free[k + 1..] && head' == At(h'.free, 0)
            && SameSizes(h.blocks, h'.blocks, h.free[k]) && LiveHeaders(mem', h'.blocks) && Ascending(h.free)
  {
    GoodParts(h, arenas);
    LiveRelinked(mem, mem', head, head', h, arenas, h.free[k], k, At(h.free, k + 1), Take(h, k, r).blocks);
  }

  lemma InsertFrame(mem: Words, mem': Words, head: nat, head': nat, h: Heap, arenas: seq<Arena>, a: nat)
    requires a in h.blocks && h.blocks[a].status == Live && Below(h.free, a) <= STEP_LIMIT + 1
    requires Relinked(mem, mem', head, head', h, arenas, a, Below(h.free, a), a)
    requires Node(mem', h.blocks, a, At(h.free, Below(h.free, a)))
    ensures var h', n := Release(h, a), Below(h.free, a);
            && h'.free == h.free[..n] + [a] + h.free[n..] && head' == At(h'.free, 0)
            && SameSizes(h.blocks, h'.blocks, a) && LiveHeaders(mem', h'.blocks)
            && Node(mem', h'.blocks, a, At(h.free, n))
  {
    LiveRelinked(mem, mem', head, head', h, arenas, a, Below(h.free, a), a, Release(h, a).blocks);
  }

  lemma ThreadedSplit(mem: Words, mem': Words, head: nat, head': nat, h: Heap, arenas: seq<Arena>, k: nat, r: nat)
    requires k < |h.free| && h.free[k] in h.blocks && h.blocks[h.free[k]].size >= r + HEADER + MIN_ALLOC
    requires Relinked(mem, mem', head, head', h, arenas, h.free[k], k, h.free[k] + HEADER + r)
    requires Header(mem', h.free[k], r)
    requires Node(mem', Take(h, k, r).blocks, h.free[k] + HEADER + r, At(h.free, k + 1))
    ensures Threaded(mem', head', Take(h, k, r))
  {
    hide Relinked, Take, Ascending, Threaded, Good, LiveHeaders, Node, Header, SameSizes;
    var a, h' := h.free[k], Take(h, k, r);
    SplitFrame(mem, mem', head, head', h, arenas, k, r);
    forall i | 0 <= i < |h'.free|
      ensures Node(mem', h'.blocks, h'.free[i], At(h'.free, i + 1))
    {
      if i != k {
        DistinctElements(h.free, i, k);
        NodeIn(mem, mem', head, head', h, arenas, a, k, a + HEADER + r, i, h'.blocks, At(h'.free, i + 1));
      }
    }
    ThreadedIntro(mem', head', h');
  }

  lemma ThreadedRemove(mem: Words, mem': Words, head: nat, head': nat, h: Heap, arenas: seq<Arena>, k: nat, r: nat)
    requires k < |h.free| && h.free[k] in h.blocks && r <= h.blocks[h.free[k]].size < r + HEADER + MIN_ALLOC
    requires Relinked(mem, mem', head, head', h, arenas, h.free[k], k, At(h.free, k + 1))
    requires Header(mem', h.free[k], h.blocks[h.free[k]].size)
    ensures Threaded(mem', head', Take(h, k, r))
  {
    hide Relinked, Take, Ascending, Threaded, Good, LiveHeaders, Node, Header, SameSizes, At;
    var a, h' := h.free[k], Take(h, k, r);
    RemoveFrame(mem, mem', head, head', h, arenas, k, r);
    forall i | 0 <= i < |h'.free|
      ensures Node(mem', h'.blocks, h'.free[i], At(h'.free, i + 1))
    {
      var j := if i < k then i else i + 1;
      RemovedAt(h.free, k, i);
      DistinctElements(h.free, j, k);
      NodeIn(mem, mem', head, head', h, arenas, a, k, At(h.free, k + 1), j, h'.blocks, At(h'.free, i + 1));
    }
    ThreadedIntro(mem', head', h');
  }

  lemma ThreadedInsert(mem: Words, mem': Words, head: nat, head': nat, h: Heap, arenas: seq<Arena>, a: nat)
    requires a in h.blocks && h.blocks[a].status == Live && Below(h.free, a) <= STEP_LIMIT + 1
    requires Relinked(mem, mem', head, head', h, arenas, a, Below(h.free, a), a)
    requires Node(mem', h.blocks, a, At(h.free, Below(h.free, a)))
    ensures Threaded(mem', head', Release(h, a))
  {
    hide Relinked, Release, Threaded, Good, LiveHeaders, Node, Header, SameSizes, At, Below;
    var n, h' := Below(h.free, a), Release(h, a);
    InsertFrame(mem, mem', head, head', h, arenas, a);
    RelinkedGood(mem, mem', head, head', h, arenas, a, n, a);
    LiveNotListed(h, arenas, a);
    forall i | 0 <= i < |h'.free|
      ensures Node(mem', h'.blocks, h'.free[i], At(h'.free, i + 1))
    {
      InsertedAt(h.free, n, a, i);
      if i != n {
        var j := if i < n then i else i - 1;
        NodeIn(mem, mem', head, head', h, arenas, a, n, a, j, h'.blocks, At(h'.free, i + 1));
      }
    }
    ThreadedIntro(mem', head', h');
  }

  lemma RelinkedGood(mem: Words, mem': Words, head: nat, head': nat, h: Heap, arenas: seq<Arena>, a: nat, k: nat, value: nat)
    requires Relinked(mem, mem', head, head', h, arenas, a, k, value)
    ensures Good(h, arenas)
  {
  }

  // ---- Facts the loops need ----

  lemma NodeAt(mem: Words, head: nat, h: Heap, i: nat)
    requires Threaded(mem, head, h) && i < |h.free|
    ensures Node(mem, h.blocks, h.free[i], At(h.free, i + 1))
  {
    assert Node(mem, h.blocks, h.free[i], At(h.free, i + 1));
  }

  lemma BelowIs(free: seq<nat>, a: nat, n: nat)
    requires Ascending(free) && n <= |free|
    requires n > 0 ==> free[n - 1] < a
    requires n < |free| ==> free[n] >= a
    ensures Below(free, a) == n
  {
    var m := Below(free, a);
    if m < n { assert false; }
  }

  lemma BelowAtLeast(free: seq<nat>, a: nat, i: nat)
    requires Ascending(free) && i < |free| && free[i] < a
    ensures Below(free, a) > i
  {
    var m := Below(free, a);
    if m < i { assert false; }
  }

  /** The link to the `k`-th element lies in the header of its predecessor, outside the block `a`. */
  lemma LinkOutside(mem: Words, head: nat, h: Heap, arenas: seq<Arena>, k: nat, a: nat)
    requires Good(h, arenas) && Threaded(mem, head, h) && 0 < k <= |h.free| && a in h.blocks && a != h.free[k - 1]
    ensures LinkOf(h.free, k) in mem && !InBlock(h.blocks, a, LinkOf(h.free, k))
    ensures mem[LinkOf(h.free, k)] == At(h.free, k) && !LiveWord(h.blocks, LinkOf(h.free, k))
  {
    var b := h.free[k - 1];
    NodeAt(mem, head, h, k - 1);
    ListElements(h.blocks, h.free);
    HeaderOutside(h, arenas, a, b);
    forall c | c in h.blocks && h.blocks[c].status == Live
      ensures !(c + HEADER <= b + 8 < End(h.blocks, c))
    {
      HeaderOutside(h, arenas, c, b);
    }
  }

  lemma HeaderOutside(h: Heap, arenas: seq<Arena>, a: nat, b: nat)
    requires Good(h, arenas) && a in h.blocks && b in h.blocks && a != b
    ensures !InBlock(h.blocks, a, b) && !InBlock(h.blocks, a, b + 8)
  {
    assert a < b ==> End(h.blocks, a) <= b;
    assert b < a ==> End(h.blocks, b) <= a;
  }

  /** The link word of a header is in no payload. */
  lemma HeaderNotPayload(h: Heap, arenas: seq<Arena>, a: nat)
    requires Good(h, arenas) && a in h.blocks
    ensures !LiveWord(h.blocks, a + 8)
  {
  }

  /** Words of a live block's payload are in no other block. */
  lemma LiveWordOutside(h: Heap, arenas: seq<Arena>, a: nat, w: nat)
    requires Good(h, arenas) && a in h.blocks && h.blocks[a].status != Live && LiveWord(h.blocks, w)
    ensures !InBlock(h.blocks, a, w)
  {
    var c :| c in h.blocks && h.blocks[c].status == Live && c + HEADER <= w < End(h.blocks, c);
    assert a < c ==> End(h.blocks, a) <= c;
    assert c < a ==> End(h.blocks, c) <= a;
  }

  // ---- The allocator ----

  class Allocator {
    var mem: Words
    var freeListHead: nat
    const hhdmOffset: nat
    ghost var heap: Heap
    ghost var arenas: seq<Arena>

    ghost predicate Valid()
      reads this
    {
      && Good(heap, arenas) && Threaded(mem, freeListHead, heap) && Backed(mem, heap.blocks)
      && forall a :: a in heap.blocks ==> a >= hhdmOffset
    }

    /** Zeroes the words from `p` up to `p + n`. */
    method Zero(p: nat, n: nat)
      requires p % 8 == 0 && n % 8 == 0
      requires forall w :: p <= w < p + n && w % 8 == 0 ==> w in mem
      modifies this`mem
      ensures mem.Keys == old(mem).Keys
      ensures forall w :: w in mem ==> mem[w] == if p <= w < p + n && w % 8 == 0 then 0 else old(mem)[w]
    {
      var i := 0;
      while i < n
        invariant 0 <= i <= n && i % 8 == 0
        invariant mem.Keys == old(mem).Keys
        invariant forall w :: w in mem ==> mem[w] == if p <= w < p + i && w % 8 == 0 then 0 else old(mem)[w]
      {
        mem := mem[p + i := 0];
        i := i + 8;
      }
    }

    /** Stores a pointer through `free_list_block **`: into the head variable or a next field. */
    method StoreLink(link: nat, value: nat)
      requires link == 0 || link in mem
      modifies this`mem, this`freeListHead
      ensures if link == 0 then freeListHead == value && mem == old(mem)
              else freeListHead == old(freeListHead) && mem == old(mem)[link := value]
    {
      if link == 0 { freeListHead := value; } else { mem := mem[link := value]; }
    }

    /** kmalloc: first fit, splitting when the rest is worth a block; the payload is zeroed. */
    method Kmalloc(size: nat) returns (ptr: nat)
      requires Valid()
      modifies this
      ensures Valid() && arenas == old(arenas)
      ensures (heap, ptr) == HeapModel.Kmalloc(old(heap), size)
      ensures ptr != 0 ==> forall w :: ptr <= w < ptr + Rounded(size) && w % 8 == 0 ==> w in mem && mem[w] == 0
      ensures forall w :: w in old(mem) && LiveWord(old(heap).blocks, w) ==> w in mem && mem[w] == old(mem)[w]
    {
      GoodListed(heap, arenas);
      if size == 0 { return 0; }
      if size > 0x1000_0000 { return 0; }
      if freeListHead == 0 {
        EmptyList(mem, heap, arenas);
        return 0;
      }
      var r := (size + 15) / 16 * 16;
      if r < 16 { r := 16; }
      assert r == Rounded(size);
      ptr := Search(r);
    }

    /** The search of kmalloc along the list. */
    method Search(r: nat) returns (ptr: nat)
      requires Valid() && Listed(heap) && r % 16 == 0 && r >= MIN_ALLOC
      modifies this
      ensures Valid() && arenas == old(arenas)
      ensures var k := FirstFit(old(heap), r, 0);
              if k == |old(heap).free| then heap == old(heap) && ptr == 0
              else heap == Take(old(heap), k, r) && ptr == old(heap).free[k] + HEADER
      ensures ptr != 0 ==> forall w :: ptr <= w < ptr + r && w % 8 == 0 ==> w in mem && mem[w] == 0
      ensures forall w :: w in old(mem) && LiveWord(old(heap).blocks, w) ==> w in mem && mem[w] == old(mem)[w]
    {
      hide Good, Backed, Listed, Take, FirstFit, LiveWord, At, LinkOf;
      ghost var h := heap;
      ghost var i := 0;
      var link := 0;
      var block := freeListHead;
      FirstLink(mem, freeListHead, h);
      hide Threaded;
      while block != 0
        invariant unchanged(this)
        invariant 0 <= i <= |h.free| && block == At(h.free, i) && link == LinkOf(h.free, i)
        invariant FirstFit(h, r, 0) == FirstFit(h, r, i)
        decreases |h.free| - i
      {
        SearchStep(mem, freeListHead, h, arenas, r, i);
        if mem[block] >= r {
          ptr := GiveOut(block, link, r, i);
          return;
        }
        link := block + 8;
        block := mem[block + 8];
        i := i + 1;
      }
      SearchEnd(h, arenas, r, i);
      ptr := 0;
    }

    /** The part of kmalloc that follows a hit: the `k`-th list element is large enough. */
    method GiveOut(block: nat, link: nat, r: nat, ghost k: nat) returns (ptr: nat)
      requires Valid() && Listed(heap)
      requires k < |heap.free| && block == heap.free[k] && link == LinkOf(heap.free, k)
      requires r % 16 == 0 && r >= MIN_ALLOC && heap.blocks[block].size >= r
      modifies this
      ensures Valid() && arenas == old(arenas)
      ensures heap == Take(old(heap), k, r) && ptr == block + 16
      ensures forall w :: ptr <= w < ptr + r && w % 8 == 0 ==> w in mem && mem[w] == 0
      ensures forall w :: w in old(mem) && LiveWord(old(heap).blocks, w) ==> w in mem && mem[w] == old(mem)[w]
    {
      ghost var h, mem0, head0 := heap, mem, freeListHead;
      BlockWords(h, arenas, mem, block);
      GiveOutFacts(mem, freeListHead, h, arenas, k);
      hide Good, Threaded, Backed, Listed, Take, LinkOf, At, LiveWord, GiveOutWrites, InBlock;
      WriteHeaders(block, link, r);
      PayloadZeroed(mem0, mem, head0, freeListHead, block, mem0[block], link, r, mem0[block + 8]);
      GiveOutDone(mem0, mem, head0, freeListHead, h, arenas, hhdmOffset, k, r);
      heap := Take(h, k, r);
      ptr := block + 16;
    }

    /** The stores of kmalloc: headers, link and zeroed payload. */
    method WriteHeaders(block: nat, link: nat, r: nat)
      requires block > 0 && block % 16 == 0 && r % 16 == 0 && r >= 16 && block in mem && block + 8 in mem
      requires mem[block] % 16 == 0 && mem[block] >= r
      requires forall w :: block <= w < block + 16 + mem[block] && w % 8 == 0 ==> w in mem
      requires link == 0 || (link in mem && !(block <= link < block + 16 + mem[block]))
      modifies this`mem, this`freeListHead
      ensures GiveOutWrites(old(mem), mem, old(freeListHead), freeListHead, block, old(mem)[block], link, r, old(mem)[block + 8])
    {
      hide HeadersStored, GiveOutWrites;
      ghost var mem0, head0 := mem, freeListHead;
      var blockSize, next := mem[block], mem[block + 8];
      if blockSize >= r + 16 + 16 {
        var newBlock := block + 16 + r;
        mem := mem[newBlock := blockSize - r - 16][newBlock + 8 := next][block := r];
        LinkStillThere(mem0, mem, link);
        StoreLink(link, newBlock);
      } else {
        StoreLink(link, next);
      }
      ghost var mem2 := mem;
      HeaderStores(mem0, mem2, head0, freeListHead, block, blockSize, link, r, next);
      PayloadWords(mem0, mem2, head0, freeListHead, block, blockSize, link, r, next);
      Zero(block + 16, r);
      ZeroStores(mem0, mem2, mem, head0, freeListHead, block, blockSize, link, r, next);
    }

    /** insert_free_block_sorted; `block` is a live block. */
    method InsertFreeBlockSorted(block: nat)
      requires Valid() && block in heap.blocks && heap.blocks[block].status == Live
      modifies this
      ensures Valid() && arenas == old(arenas)
      ensures heap == Release(old(heap), block) && mem.Keys == old(mem).Keys
      ensures forall w :: w in old(mem) && LiveWord(old(heap).blocks, w) ==> w in mem && mem[w] == old(mem)[w]
    {
      hide Good, Backed, Threaded, Listed, Below, LiveWord, Release, At, LinkOf;
      ghost var h, mem0, head0 := heap, mem, freeListHead;
      LiveBlockFacts(mem, freeListHead, h, arenas, block);
      HeaderNotPayload(h, arenas, block);
      if freeListHead == 0 || block < freeListHead {
        BelowNone(mem, freeListHead, h, arenas, block);
        mem := mem[block + 8 := freeListHead];
        freeListHead := block;
        InsertDone(mem0, mem, head0, freeListHead, h, arenas, hhdmOffset, block);
        heap := Release(h, block);
        return;
      }
      var cur := freeListHead;
      var safety := 0;
      FirstBelow(mem, freeListHead, h, arenas, block);
      while mem[cur + 8] != 0 && mem[cur + 8] < block
        invariant unchanged(this)
        invariant 0 <= safety <= 1000 && safety < |h.free| && cur == h.free[safety] && cur < block
        invariant cur + 8 in mem
        decreases 1000 - safety
      {
        NextBelow(mem, freeListHead, h, arenas, block, safety);
        cur := mem[cur + 8];
        safety := safety + 1;
        if safety > 1000 {
          DropDone(mem, freeListHead, h, arenas, block, safety);
          heap := Release(h, block);
          return;
        }
      }
      BelowFound(mem, freeListHead, h, arenas, block, safety);
      mem := mem[block + 8 := mem[cur + 8]];
      mem := mem[cur + 8 := block];
      InsertDone(mem0, mem, head0, freeListHead, h, arenas, hhdmOffset, block);
      heap := Release(h, block);
    }

    /** kfree: ignores NULL and pointers below the direct map. */
    method Kfree(ptr: nat)
      requires Valid()
      requires ptr == 0 || (ptr >= 16 && (ptr - 16 < hhdmOffset ||
                 (ptr - 16 in heap.blocks && heap.blocks[ptr - 16].status == Live)))
      modifies this
      ensures Valid() && arenas == old(arenas)
      ensures heap == if ptr == 0 || ptr - 16 < hhdmOffset then old(heap) else Release(old(heap), ptr - 16)
      ensures forall w :: w in old(mem) && LiveWord(old(heap).blocks, w) ==> w in mem && mem[w] == old(mem)[w]
    {
      if ptr == 0 { return; }
      var block := ptr - 16;
      if block < hhdmOffset { return; }
      InsertFreeBlockSorted(block);
    }
  }

  /** Everything GiveOutWrites says but the zeroing. */
  ghost predicate HeadersStored(mem: Words, mem': Words, head: nat, head': nat, a: nat, size: nat, link: nat, r: nat, next: nat) {
    var split := size >= r + 32;
    var rest := a + 16 + r;
    var value := if split then rest else next;
    && mem'.Keys == mem.Keys
    && (forall w :: w in mem && !(a <= w < a + 16 + size) && w != link ==> mem'[w] == mem[w])
    && (if split then a in mem' && mem'[a] == r
                      && rest in mem' && mem'[rest] == size - r - 16
                      && rest + 8 in mem' && mem'[rest + 8] == next
        else a in mem' && mem'[a] == size)
    && (if link == 0 then head' == value else head' == head && link in mem' && mem'[link] == value)
  }

  lemma LinkStillThere(mem: Words, mem': Words, link: nat)
    requires forall w :: w in mem ==> w in mem'
    requires link == 0 || link in mem
    ensures link == 0 || link in mem'
  {
  }

  lemma HalfAligned(x: nat)
    ensures x % 16 == 0 ==> x % 8 == 0
  {
  }

  lemma PayloadWords(mem: Words, mem': Words, head: nat, head': nat, a: nat, size: nat, link: nat, r: nat, next: nat)
    requires HeadersStored(mem, mem', head, head', a, size, link, r, next) && size >= r && a % 16 == 0 && r % 16 == 0
    requires forall w :: a <= w < a + 16 + size && w % 8 == 0 ==> w in mem
    ensures forall w :: a + 16 <= w < a + 16 + r && w % 8 == 0 ==> w in mem'
    ensures (a + 16) % 8 == 0 && r % 8 == 0 && a % 8 == 0
  {
    HalfAligned(a);
    HalfAligned(r);
    HalfAligned(a + 16);
  }

  lemma HeaderStores(mem: Words, mem': Words, head: nat, head': nat, a: nat, size: nat, link: nat, r: nat, next: nat)
    requires a > 0 && a % 16 == 0 && r % 16 == 0 && r >= 16 && size % 16 == 0 && size >= r && a in mem && mem[a] == size
    requires forall w :: a <= w < a + 16 + size && w % 8 == 0 ==> w in mem
    requires link == 0 || (link in mem && !(a <= link < a + 16 + size))
    requires var split := size >= r + 32;
             var mem1 := if split then mem[a + 16 + r := size - r - 16][a + 16 + r + 8 := next][a := r] else mem;
             var value := if split then a + 16 + r else next;
             if link == 0 then head' == value && mem' == mem1 else head' == head && mem' == mem1[link := value]
    ensures HeadersStored(mem, mem', head, head', a, size, link, r, next)
  {
    if size >= r + 32 {
      HalfAligned(a);
      HalfAligned(r);
      RestAligned(a, r);
      SplitStores(mem, mem', head, head', a, size, link, r, next);
    } else {
      assert mem'.Keys == mem.Keys;
    }
  }

  lemma RestAligned(a: nat, r: nat)
    requires a % 8 == 0 && r % 8 == 0
    ensures (a + 16 + r) % 8 == 0 && (a + 16 + r + 8) % 8 == 0
  {
  }

  /** The stores when the block is cut in two. */
  lemma SplitStores(mem: Words, mem': Words, head: nat, head': nat, a: nat, size: nat, link: nat, r: nat, next: nat)
    requires size >= r + 32 && r >= 16 && a in mem && a + 16 + r in mem && a + 16 + r + 8 in mem
    requires link == 0 || (link in mem && !(a <= link < a + 16 + size))
    requires var mem1 := mem[a + 16 + r := size - r - 16][a + 16 + r + 8 := next][a := r];
             if link == 0 then head' == a + 16 + r && mem' == mem1 else head' == head && mem' == mem1[link := a + 16 + r]
    ensures HeadersStored(mem, mem', head, head', a, size, link, r, next)
  {
    assert mem'.Keys == mem.Keys;
  }

  lemma PayloadZeroed(mem: Words, mem': Words, head: nat, head': nat, a: nat, size: nat, link: nat, r: nat, next: nat)
    requires a + 8 in mem && GiveOutWrites(mem, mem', head, head', a, size, link, r, next)
    ensures forall w :: a + 16 <= w < a + 16 + r && w % 8 == 0 ==> w in mem' && mem'[w] == 0
  {
  }

  lemma ZeroStores(mem: Words, mem2: Words, mem': Words, head: nat, head': nat, a: nat, size: nat, link: nat, r: nat, next: nat)
    requires HeadersStored(mem, mem2, head, head', a, size, link, r, next)
    requires a > 0 && size >= r && a % 8 == 0 && r % 8 == 0 && a + 8 in mem
    requires link == 0 || !(a <= link < a + 16 + size)
    requires mem'.Keys == mem2.Keys
    requires forall w :: a <= w < a + 16 + size && w % 8 == 0 ==> w in mem
    requires forall w :: w in mem' ==> mem'[w] == if a + 16 <= w < a + 16 + r && w % 8 == 0 then 0 else mem2[w]
    ensures GiveOutWrites(mem, mem', head, head', a, size, link, r, next)
  {
  }

  lemma EmptyList(mem: Words, h: Heap, arenas: seq<Arena>)
    requires Good(h, arenas) && Listed(h) && Threaded(mem, 0, h)
    ensures h.free == []
  {
    if h.free != [] { ListElements(h.blocks, h.free); assert false; }
  }

  lemma FirstLink(mem: Words, head: nat, h: Heap)
    requires Threaded(mem, head, h)
    ensures head == At(h.free, 0) && LinkOf(h.free, 0) == 0
  {
  }

  lemma SearchStep(mem: Words, head: nat, h: Heap, arenas: seq<Arena>, r: nat, i: nat)
    requires Good(h, arenas) && Listed(h) && Threaded(mem, head, h) && i <= |h.free| && At(h.free, i) != 0
    ensures i < |h.free| && h.free[i] == At(h.free, i)
    ensures h.free[i] in mem && h.free[i] + 8 in mem
    ensures mem[h.free[i]] == h.blocks[h.free[i]].size && mem[h.free[i] + 8] == At(h.free, i + 1)
    ensures LinkOf(h.free, i + 1) == h.free[i] + 8
    ensures FirstFit(h, r, i) == if h.blocks[h.free[i]].size >= r then i else FirstFit(h, r, i + 1)
  {
    NodeAt(mem, head, h, i);
  }

  lemma SearchEnd(h: Heap, arenas: seq<Arena>, r: nat, i: nat)
    requires Good(h, arenas) && Listed(h) && i <= |h.free| && At(h.free, i) == 0
    ensures FirstFit(h, r, i) == |h.free|
  {
    ListedPositive(h, arenas, i);
  }

  lemma ListedPositive(h: Heap, arenas: seq<Arena>, i: nat)
    requires Good(h, arenas) && i <= |h.free|
    ensures At(h.free, i) != 0 <==> i < |h.free|
  {
    ListElements(h.blocks, h.free);
  }

  /** The words of a block, and that its header and payload boundaries are word addresses. */
  lemma BlockWords(h: Heap, arenas: seq<Arena>, mem: Words, a: nat)
    requires Good(h, arenas) && a in h.blocks && Backed(mem, h.blocks)
    ensures a > 0 && a % 16 == 0 && h.blocks[a].size % 16 == 0 && h.blocks[a].size >= 16
    ensures forall w :: a <= w < a + 16 + h.blocks[a].size && w % 8 == 0 ==> w in mem
  {
  }

  lemma GiveOutFacts(mem: Words, head: nat, h: Heap, arenas: seq<Arena>, k: nat)
    requires Good(h, arenas) && Listed(h) && Threaded(mem, head, h) && k < |h.free|
    ensures h.free[k] in mem && h.free[k] + 8 in mem && mem[h.free[k]] == h.blocks[h.free[k]].size
    ensures mem[h.free[k] + 8] == At(h.free, k + 1)
    ensures k > 0 ==> LinkOf(h.free, k) in mem && !InBlock(h.blocks, h.free[k], LinkOf(h.free, k))
    ensures LinkOf(h.free, k) == 0 <==> k == 0
  {
    NodeAt(mem, head, h, k);
    if k > 0 {
      DistinctElements(h.free, k - 1, k);
      LinkOutside(mem, head, h, arenas, k, h.free[k]);
    }
  }
  /** The words kmalloc leaves: a header of size `r` in front of the zeroed payload and the rest as a
      new list element, or the whole block unchanged; and the redirected link. */
  ghost predicate GiveOutWrites(mem: Words, mem': Words, head: nat, head': nat, a: nat, size: nat, link: nat, r: nat, next: nat)
    requires a + 8 in mem
  {
    var split := size >= r + 32;
    var rest := a + 16 + r;
    var value := if split then rest else next;
    && mem'.Keys == mem.Keys
    && (forall w :: w in mem && !(a <= w < a + 16 + size) && w != link ==> mem'[w] == mem[w])
    && (forall w :: a + 16 <= w < a + 16 + r && w % 8 == 0 ==> w in mem' && mem'[w] == 0)
    && (if split then a in mem' && mem'[a] == r
                      && rest in mem' && mem'[rest] == size - r - 16
                      && rest + 8 in mem' && mem'[rest + 8] == next
        else a in mem' && mem'[a] == size)
    && (if link == 0 then head' == value else head' == head && link in mem' && mem'[link] == value)
  }

  lemma GiveOutDone(mem: Words, mem': Words, head: nat, head': nat, h: Heap, arenas: seq<Arena>, low: nat, k: nat, r: nat)
    requires Good(h, arenas) && Listed(h) && Threaded(mem, head, h) && Backed(mem, h.blocks) && k < |h.free|
    requires forall a :: a in h.blocks ==> a >= low
    requires r % 16 == 0 && r >= MIN_ALLOC && h.blocks[h.free[k]].size >= r
    requires h.free[k] + 8 in mem
    requires GiveOutWrites(mem, mem', head, head', h.free[k], h.blocks[h.free[k]].size, LinkOf(h.free, k), r, At(h.free, k + 1))
    ensures var h' := Take(h, k, r);
            && Good(h', arenas) && Threaded(mem', head', h') && Backed(mem', h'.blocks)
            && forall a :: a in h'.blocks ==> a >= low
    ensures forall w :: w in mem && LiveWord(h.blocks, w) ==> w in mem' && mem'[w] == mem[w]
  {
    TakeGood(h, arenas, k, r);
    LiveWordsKept(mem, mem', head, head', h, arenas, k, r);
    TakeBacked(mem, mem', h, arenas, low, k, r);
    GiveOutThreaded(mem, mem', head, head', h, arenas, k, r);
  }

  lemma LiveWordsKept(mem: Words, mem': Words, head: nat, head': nat, h: Heap, arenas: seq<Arena>, k: nat, r: nat)
    requires Good(h, arenas) && Listed(h) && Threaded(mem, head, h) && k < |h.free| && h.free[k] + 8 in mem
    requires GiveOutWrites(mem, mem', head, head', h.free[k], h.blocks[h.free[k]].size, LinkOf(h.free, k), r, At(h.free, k + 1))
    ensures forall w :: w in mem && LiveWord(h.blocks, w) ==> w in mem' && mem'[w] == mem[w]
  {
    ListElements(h.blocks, h.free);
    var a, link := h.free[k], LinkOf(h.free, k);
    if k > 0 {
      DistinctElements(h.free, k - 1, k);
      LinkOutside(mem, head, h, arenas, k, a);
    }
    hide Good, Threaded, Listed, LinkOf;
    forall w | w in mem && LiveWord(h.blocks, w)
      ensures w in mem' && mem'[w] == mem[w]
    {
      LiveWordOutside(h, arenas, a, w);
      if k == 0 { LiveWordPositive(h, arenas, w); }
    }
  }

  lemma LiveWordPositive(h: Heap, arenas: seq<Arena>, w: nat)
    requires Good(h, arenas) && LiveWord(h.blocks, w)
    ensures w > 0
  {
  }

  lemma TakeBacked(mem: Words, mem': Words, h: Heap, arenas: seq<Arena>, low: nat, k: nat, r: nat)
    requires Good(h, arenas) && Listed(h) && Backed(mem, h.blocks) && k < |h.free| && mem'.Keys == mem.Keys
    requires forall a :: a in h.blocks ==> a >= low
    requires h.blocks[h.free[k]].size >= r
    ensures Backed(mem', Take(h, k, r).blocks)
    ensures forall a :: a in Take(h, k, r).blocks ==> a >= low
  {
    TakeRefines(h, k, r);
    var blocks' := Take(h, k, r).blocks;
    hide Take, Good, Listed, Backed;
    forall a | a in blocks'
      ensures a >= low && WordsOf(mem', blocks', a)
    {
      assert Inside(blocks', h.blocks, a);
      var b :| b in h.blocks && b <= a && End(blocks', a) <= End(h.blocks, b);
      InsideBacked(mem, mem', h.blocks, blocks', a, b);
    }
    AllBacked(mem', blocks');
  }

  ghost predicate WordsOf(mem: Words, blocks: Blocks, a: nat)
    requires a in blocks
  {
    forall w :: a <= w < End(blocks, a) && w % 8 == 0 ==> w in mem
  }

  lemma InsideBacked(mem: Words, mem': Words, blocks: Blocks, blocks': Blocks, a: nat, b: nat)
    requires Backed(mem, blocks) && mem'.Keys == mem.Keys
    requires a in blocks' && b in blocks && b <= a && End(blocks', a) <= End(blocks, b)
    ensures WordsOf(mem', blocks', a)
  {
  }

  lemma AllBacked(mem: Words, blocks: Blocks)
    requires forall a :: a in blocks ==> WordsOf(mem, blocks, a)
    ensures Backed(mem, blocks)
  {
  }

  lemma GiveOutThreaded(mem: Words, mem': Words, head: nat, head': nat, h: Heap, arenas: seq<Arena>, k: nat, r: nat)
    requires Good(h, arenas) && Listed(h) && Threaded(mem, head, h) && k < |h.free| && h.free[k] + 8 in mem
    requires r % 16 == 0 && r >= MIN_ALLOC && h.blocks[h.free[k]].size >= r
    requires GiveOutWrites(mem, mem', head, head', h.free[k], h.blocks[h.free[k]].size, LinkOf(h.free, k), r, At(h.free, k + 1))
    ensures Threaded(mem', head', Take(h, k, r))
  {
    var a, size := h.free[k], h.blocks[h.free[k]].size;
    NodeAt(mem, head, h, k);
    hide Good, Threaded, LinkOf, At;
    LinkZero(h, k);
    if size >= r + HEADER + MIN_ALLOC {
      assert Relinked(mem, mem', head, head', h, arenas, a, k, a + HEADER + r);
      assert Node(mem', Take(h, k, r).blocks, a + HEADER + r, At(h.free, k + 1));
      ThreadedSplit(mem, mem', head, head', h, arenas, k, r);
    } else {
      assert Relinked(mem, mem', head, head', h, arenas, a, k, At(h.free, k + 1));
      ThreadedRemove(mem, mem', head, head', h, arenas, k, r);
    }
  }

  lemma LinkZero(h: Heap, k: nat)
    requires k <= |h.free|
    ensures LinkOf(h.free, k) == 0 <==> k == 0
  {
  }

  // ---- Insertion ----

  lemma LiveBlockFacts(mem: Words, head: nat, h: Heap, arenas: seq<Arena>, a: nat)
    requires Good(h, arenas) && Threaded(mem, head, h) && a in h.blocks && h.blocks[a].status == Live
    ensures a > 0 && a % 16 == 0 && a in mem && a + 8 in mem && mem[a] == h.blocks[a].size
    ensures head == At(h.free, 0) && Listed(h)
    ensures forall i :: 0 <= i < |h.free| ==> h.free[i] != a
  {
    ListElements(h.blocks, h.free);
  }

  lemma BelowNone(mem: Words, head: nat, h: Heap, arenas: seq<Arena>, a: nat)
    requires Good(h, arenas) && Threaded(mem, head, h) && (head == 0 || a < head)
    ensures Below(h.free, a) == 0 && At(h.free, 0) == head
  {
    ListedPositive(h, arenas, 0);
    BelowIs(h.free, a, 0);
  }

  lemma FirstBelow(mem: Words, head: nat, h: Heap, arenas: seq<Arena>, a: nat)
    requires Good(h, arenas) && Threaded(mem, head, h) && head != 0 && head <= a
    requires a in h.blocks && h.blocks[a].status == Live
    ensures |h.free| > 0 && h.free[0] == head && head < a && head + 8 in mem
  {
    ListedPositive(h, arenas, 0);
    NodeAt(mem, head, h, 0);
    ListElements(h.blocks, h.free);
  }

  lemma NextBelow(mem: Words, head: nat, h: Heap, arenas: seq<Arena>, a: nat, i: nat)
    requires Good(h, arenas) && Threaded(mem, head, h) && i < |h.free| && h.free[i] + 8 in mem
    requires mem[h.free[i] + 8] != 0
    ensures i + 1 < |h.free| && mem[h.free[i] + 8] == h.free[i + 1] && h.free[i + 1] + 8 in mem
  {
    NodeAt(mem, head, h, i);
    if i + 1 < |h.free| { NodeAt(mem, head, h, i + 1); }
  }

  lemma BelowFound(mem: Words, head: nat, h: Heap, arenas: seq<Arena>, a: nat, i: nat)
    requires Good(h, arenas) && Threaded(mem, head, h) && i < |h.free| && h.free[i] < a && h.free[i] + 8 in mem && i <= 1000
    requires a in h.blocks && h.blocks[a].status == Live
    requires mem[h.free[i] + 8] == 0 || mem[h.free[i] + 8] >= a
    ensures Below(h.free, a) == i + 1 && mem[h.free[i] + 8] == At(h.free, i + 1) && LinkOf(h.free, i + 1) == h.free[i] + 8
    ensures h.free[i] + 8 != a && h.free[i] != a && h.free[i] + 8 != a + 8
  {
    NodeAt(mem, head, h, i);
    ListedPositive(h, arenas, i + 1);
    BelowIs(h.free, a, i + 1);
    ListElements(h.blocks, h.free);
  }

  /** The list after an insertion: the block points to its successor, and the link before it to it. */
  lemma InsertDone(mem: Words, mem': Words, head: nat, head': nat, h: Heap, arenas: seq<Arena>, low: nat, a: nat)
    requires Good(h, arenas) && Threaded(mem, head, h) && Backed(mem, h.blocks) && a in h.blocks && h.blocks[a].status == Live
    requires forall b :: b in h.blocks ==> b >= low
    requires Below(h.free, a) <= STEP_LIMIT + 1
    requires var n := Below(h.free, a);
             var next := At(h.free, n);
             if n == 0 then head' == a && mem' == mem[a + 8 := next]
             else head' == head && mem' == mem[a + 8 := next][LinkOf(h.free, n) := a]
    ensures var h' := Release(h, a);
            && Good(h', arenas) && Threaded(mem', head', h') && Backed(mem', h'.blocks)
            && forall b :: b in h'.blocks ==> b >= low
    ensures forall w :: w in mem && w != a + 8 && LiveWord(h.blocks, w) ==> w in mem' && mem'[w] == mem[w]
  {
    hide Good, Threaded, Release, Below, Backed, LiveWord, At, LinkOf, InBlock;
    var n := Below(h.free, a);
    ReleaseGood(h, arenas, a);
    SameBlocks(h, a);
    LiveBlockFacts(mem, head, h, arenas, a);
    if n > 0 { LinkOutside(mem, head, h, arenas, n, a); }
    ReleaseBacked(mem, mem', h, a);
    InsertRelinked(mem, mem', head, head', h, arenas, a);
    ThreadedInsert(mem, mem', head, head', h, arenas, a);
  }

  lemma SameBlocks(h: Heap, a: nat)
    requires a in h.blocks
    ensures forall b :: b in Release(h, a).blocks <==> b in h.blocks
  {
  }

  lemma InsertRelinked(mem: Words, mem': Words, head: nat, head': nat, h: Heap, arenas: seq<Arena>, a: nat)
    requires Good(h, arenas) && Threaded(mem, head, h) && a in h.blocks && h.blocks[a].status == Live
    requires a in mem && a + 8 in mem && mem[a] == h.blocks[a].size && a > 0
    requires Below(h.free, a) > 0 ==> LinkOf(h.free, Below(h.free, a)) in mem && !InBlock(h.blocks, a, LinkOf(h.free, Below(h.free, a)))
    requires var n := Below(h.free, a);
             var next := At(h.free, n);
             if n == 0 then head' == a && mem' == mem[a + 8 := next]
             else head' == head && mem' == mem[a + 8 := next][LinkOf(h.free, n) := a]
    ensures Relinked(mem, mem', head, head', h, arenas, a, Below(h.free, a), a)
    ensures Node(mem', h.blocks, a, At(h.free, Below(h.free, a)))
  {
    hide Good, Threaded, Below, At;
    var n := Below(h.free, a);
    assert mem'.Keys == mem.Keys;
    assert InBlock(h.blocks, a, a + 8) && InBlock(h.blocks, a, a);
  }

  lemma ReleaseBacked(mem: Words, mem': Words, h: Heap, a: nat)
    requires Backed(mem, h.blocks) && a in h.blocks && forall w :: w in mem ==> w in mem'
    ensures Backed(mem', Release(h, a).blocks)
  {
    var blocks' := Release(h, a).blocks;
    forall b, w | b in blocks' && b <= w < End(blocks', b) && w % 8 == 0
      ensures w in mem'
    {
      assert b in h.blocks && End(blocks', b) == End(h.blocks, b);
    }
  }

  /** Giving up leaves the words alone; the block is in no list any more. */
  lemma DropDone(mem: Words, head: nat, h: Heap, arenas: seq<Arena>, a: nat, i: nat)
    requires Good(h, arenas) && Threaded(mem, head, h) && Backed(mem, h.blocks) && a in h.blocks && h.blocks[a].status == Live
    requires i == 1001 && i < |h.free| && h.free[i] < a
    ensures var h' := Release(h, a);
            && Good(h', arenas) && Threaded(mem, head, h') && Backed(mem, h'.blocks) && h'.blocks.Keys == h.blocks.Keys
  {
    GoodParts(h, arenas);
    BelowAtLeast(h.free, a, i);
    ReleaseGood(h, arenas, a);
    ReleaseBacked(mem, mem, h, a);
    LiveNotListed(h, arenas, a);
    DropThreaded(mem, head, h, a);
    hide Good, Threaded, Backed, Listed;
    assert Release(h, a) == h.(blocks := h.blocks[a := h.blocks[a].(status := Leaked)]);
  }

  lemma DropThreaded(mem: Words, head: nat, h: Heap, a: nat)
    requires Threaded(mem, head, h) && a in h.blocks && h.blocks[a].status == Live
    ensures Threaded(mem, head, h.(blocks := h.blocks[a := h.blocks[a].(status := Leaked)]))
  {
    var h' := h.(blocks := h.blocks[a := h.blocks[a].(status := Leaked)]);
    forall j | 0 <= j < |h'.free|
      ensures Node(mem, h'.blocks, h'.free[j], At(h'.free, j + 1))
    {
      NodeAt(mem, head, h, j);
    }
    ThreadedIntro(mem, head, h');
  }
}
