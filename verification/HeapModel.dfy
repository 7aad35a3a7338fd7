/** The kernel heap as a partition of its arenas into blocks, and what kmalloc and kfree do to it. */
module HeapModel {

  const HEADER: nat := 16
  const MIN_ALLOC: nat := 16
  const MAX_ALLOC: nat := 0x1000_0000
  /** insert_free_block_sorted gives up after this many steps along the list. */
  const STEP_LIMIT: nat := 1000

  datatype Status = Free | Live | Leaked

  /** A block's payload size and whose it is; its header lies in the 16 bytes before the payload. */
  datatype Block = Block(size: nat, status: Status)

  /** All blocks by the address of their header. */
  type Blocks = map<nat, Block>

  datatype Arena = Arena(start: nat, end: nat)

  function End(blocks: Blocks, a: nat): nat
    requires a in blocks
  {
    a + HEADER + blocks[a].size
  }

  predicate InBlock(blocks: Blocks, a: nat, p: nat)
    requires a in blocks
  {
    a <= p < End(blocks, a)
  }

  predicate InArenas(arenas: seq<Arena>, p: nat) {
    exists i :: 0 <= i < |arenas| && arenas[i].start <= p < arenas[i].end
  }

  // ---- The invariant ----

  ghost predicate Aligned(blocks: Blocks) {
    forall a :: a in blocks ==> a > 0 && a % 16 == 0 && blocks[a].size % 16 == 0 && blocks[a].size >= MIN_ALLOC
  }

  ghost predicate Apart(blocks: Blocks) {
    forall a, b :: a in blocks && b in blocks && a < b ==> End(blocks, a) <= b
  }

  /** Every byte of the arenas belongs to a block, and blocks have no other bytes. */
  ghost predicate Covers(blocks: Blocks, arenas: seq<Arena>) {
    forall p: nat :: InArenas(arenas, p) <==> Owned(blocks, p)
  }

  ghost predicate Owned(blocks: Blocks, p: nat) {
    exists a :: a in blocks && InBlock(blocks, a, p)
  }

  /** The blocks tile the arenas: each byte in exactly one block. */
  ghost predicate Tiles(blocks: Blocks, arenas: seq<Arena>) {
    Aligned(blocks) && Apart(blocks) && Covers(blocks, arenas)
  }

  ghost predicate Ascending(free: seq<nat>) {
    forall i, j :: 0 <= i < j < |free| ==> free[i] < free[j]
  }

  /** `free` is the list of exactly the free blocks, in strictly ascending order. */
  ghost predicate FreeList(blocks: Blocks, free: seq<nat>) {
    && Ascending(free)
    && (forall a :: a in free <==> a in blocks && blocks[a].status == Free)
  }

  lemma ListElements(blocks: Blocks, free: seq<nat>)
    requires FreeList(blocks, free)
    ensures forall i :: 0 <= i < |free| ==> free[i] in blocks && blocks[free[i]].status == Free
  {
    forall i | 0 <= i < |free|
      ensures free[i] in blocks && blocks[free[i]].status == Free
    {
      assert free[i] in free;
    }
  }

  /** The heap: its blocks and the order of the free list. */
  datatype Heap = Heap(blocks: Blocks, free: seq<nat>)

  /** The list only names blocks. */
  ghost predicate Listed(h: Heap) {
    forall j :: 0 <= j < |h.free| ==> h.free[j] in h.blocks
  }

  ghost predicate Good(h: Heap, arenas: seq<Arena>) {
    Tiles(h.blocks, arenas) && FreeList(h.blocks, h.free)
  }

  // ---- kmalloc ----

  function Rounded(size: nat): (r: nat)
    ensures r >= size && r >= MIN_ALLOC && r % 16 == 0
  {
    var r := (size + 15) / 16 * 16;
    if r < MIN_ALLOC then MIN_ALLOC else r
  }

  /** The position in the free list of the first block with room for `r` bytes, from `i` on. */
  function FirstFit(h: Heap, r: nat, i: nat): (k: nat)
    requires Listed(h)
    ensures i <= |h.free| ==> i <= k <= |h.free|
    ensures k < |h.free| ==> h.blocks[h.free[k]].size >= r
    ensures forall j :: i <= j < k && j < |h.free| ==> h.blocks[h.free[j]].size < r
    decreases |h.free| - i
  {
    if i >= |h.free| || h.blocks[h.free[i]].size >= r then i else FirstFit(h, r, i + 1)
  }

  /** Giving out the `k`-th free block: split when the rest can hold a header and 16 bytes. */
  function Take(h: Heap, k: nat, r: nat): Heap
    requires k < |h.free| && h.free[k] in h.blocks && h.blocks[h.free[k]].size >= r
  {
    var a := h.free[k];
    var size := h.blocks[a].size;
    if size >= r + HEADER + MIN_ALLOC then
      var rest := a + HEADER + r;
      Heap(h.blocks[a := Block(r, Live)][rest := Block(size - r - HEADER, Free)], h.free[k := rest])
    else
      Heap(h.blocks[a := Block(size, Live)], h.free[..k] + h.free[k + 1..])
  }

  /** The heap after kmalloc(size) and the pointer it returns, 0 for NULL. */
  function Kmalloc(h: Heap, size: nat): (Heap, nat)
    requires Listed(h)
  {
    if size == 0 || size > MAX_ALLOC then (h, 0)
    else
      var k := FirstFit(h, Rounded(size), 0);
      if k == |h.free| then (h, 0) else (Take(h, k, Rounded(size)), h.free[k] + HEADER)
  }

  // ---- kfree ----

  /** How many blocks of the list lie below address `a`. */
  function Below(free: seq<nat>, a: nat): (n: nat)
    ensures n <= |free|
    ensures forall i :: 0 <= i < n ==> free[i] < a
    ensures n < |free| ==> free[n] >= a
  {
    if free == [] || free[0] >= a then 0 else 1 + Below(free[1..], a)
  }

  /** Putting a block back; with more than 1001 free blocks below it the block is dropped. */
  function Release(h: Heap, a: nat): Heap
    requires a in h.blocks
  {
    var n := Below(h.free, a);
    if n > STEP_LIMIT + 1 then h.(blocks := h.blocks[a := h.blocks[a].(status := Leaked)])
    else Heap(h.blocks[a := h.blocks[a].(status := Free)], h.free[..n] + [a] + h.free[n..])
  }

  // ---- Splitting keeps the tiling ----

  ghost predicate KeepsOthers(blocks: Blocks, blocks': Blocks, a: nat) {
    forall b :: b in blocks && b != a ==> b in blocks' && blocks'[b] == blocks[b]
  }

  /** Changing only whose a block is. */
  lemma StatusTiles(blocks: Blocks, blocks': Blocks, arenas: seq<Arena>, a: nat, status: Status)
    requires Tiles(blocks, arenas) && a in blocks
    requires blocks' == blocks[a := Block(blocks[a].size, status)]
    ensures Tiles(blocks', arenas)
  {
    assert forall b :: b in blocks' <==> b in blocks;
    assert forall b :: b in blocks ==> blocks'[b].size == blocks[b].size;
    forall p: nat
      ensures Owned(blocks', p) <==> Owned(blocks, p)
    {
      if Owned(blocks, p) {
        var b :| b in blocks && InBlock(blocks, b, p);
        assert InBlock(blocks', b, p);
      }
      if Owned(blocks', p) {
        var b :| b in blocks' && InBlock(blocks', b, p);
        assert InBlock(blocks, b, p);
      }
    }
  }

  /** Cutting a block in two. */
  lemma SplitTiles(blocks: Blocks, blocks': Blocks, arenas: seq<Arena>, a: nat, r: nat, first: Status, second: Status)
    requires Tiles(blocks, arenas) && a in blocks
    requires r % 16 == 0 && r >= MIN_ALLOC && blocks[a].size >= r + HEADER + MIN_ALLOC
    requires blocks' == blocks[a := Block(r, first)][a + HEADER + r := Block(blocks[a].size - r - HEADER, second)]
    ensures a + HEADER + r !in blocks
    ensures Tiles(blocks', arenas)
  {
    var rest := a + HEADER + r;
    SplitOwned(blocks, blocks', a, r, first, second);
    forall b | b in blocks'
      ensures b > 0 && b % 16 == 0 && blocks'[b].size % 16 == 0 && blocks'[b].size >= MIN_ALLOC
    {
      assert b == rest || b in blocks;
    }
    forall b, c | b in blocks' && c in blocks' && b < c
      ensures End(blocks', b) <= c
    {
      assert b == rest || b in blocks;
      assert c == rest || c in blocks;
      assert b in blocks && b < a ==> End(blocks, b) <= a;
    }
  }

  lemma SplitOwned(blocks: Blocks, blocks': Blocks, a: nat, r: nat, first: Status, second: Status)
    requires Apart(blocks) && a in blocks && blocks[a].size >= r + HEADER + MIN_ALLOC
    requires blocks' == blocks[a := Block(r, first)][a + HEADER + r := Block(blocks[a].size - r - HEADER, second)]
    ensures a + HEADER + r !in blocks
    ensures forall p: nat :: Owned(blocks', p) <==> Owned(blocks, p)
  {
    var rest := a + HEADER + r;
    assert rest in blocks ==> End(blocks, a) <= rest;
    forall p: nat
      ensures Owned(blocks', p) <==> Owned(blocks, p)
    {
      if Owned(blocks, p) {
        var b :| b in blocks && InBlock(blocks, b, p);
        assert InBlock(blocks', if b != a then b else if p < rest then a else rest, p);
      }
      if Owned(blocks', p) {
        var b :| b in blocks' && InBlock(blocks', b, p);
        assert InBlock(blocks, if b == rest then a else b, p);
      }
    }
  }

  // ---- kmalloc and kfree keep the heap good ----

  lemma TakeGood(h: Heap, arenas: seq<Arena>, k: nat, r: nat)
    requires Good(h, arenas) && k < |h.free| && r % 16 == 0 && r >= MIN_ALLOC
    requires h.free[k] in h.blocks && h.blocks[h.free[k]].size >= r
    ensures Good(Take(h, k, r), arenas)
  {
    ListElements(h.blocks, h.free);
    var a := h.free[k];
    var size := h.blocks[a].size;
    var h' := Take(h, k, r);
    if size >= r + HEADER + MIN_ALLOC {
      SplitTiles(h.blocks, h'.blocks, arenas, a, r, Live, Free);
      var rest := a + HEADER + r;
      SplitAscending(h, k, rest);
      UpdateMembers(h.free, k, rest);
    } else {
      StatusTiles(h.blocks, h'.blocks, arenas, a, Live);
      RemoveListed(h, k, h');
    }
  }

  lemma UpdateMembers(q: seq<nat>, k: nat, x: nat)
    requires Ascending(q) && k < |q|
    ensures forall y :: y in q[k := x] <==> (y in q && y != q[k]) || y == x
  {
    var r := q[k := x];
    assert q == q[..k] + [q[k]] + q[k + 1..];
    assert r == q[..k] + [x] + q[k + 1..];
    Without(q, k);
    WithMembers(q[..k], q[k + 1..], x);
  }

  lemma SplitAscending(h: Heap, k: nat, rest: nat)
    requires FreeList(h.blocks, h.free) && Apart(h.blocks) && k < |h.free| && h.free[k] in h.blocks
    requires h.free[k] < rest < End(h.blocks, h.free[k])
    ensures Ascending(h.free[k := rest])
  {
    ListElements(h.blocks, h.free);
    var free' := h.free[k := rest];
    forall i, j | 0 <= i < j < |free'|
      ensures free'[i] < free'[j]
    {
      assert h.free[i] < h.free[j];
      assert i == k ==> End(h.blocks, h.free[k]) <= h.free[j];
    }
  }

  lemma RemoveListed(h: Heap, k: nat, h': Heap)
    requires FreeList(h.blocks, h.free) && k < |h.free| && h.free[k] in h.blocks
    requires h'.free == h.free[..k] + h.free[k + 1..]
    requires h'.blocks == h.blocks[h.free[k] := h.blocks[h.free[k]].(status := Live)]
    ensures FreeList(h'.blocks, h'.free)
  {
    Without(h.free, k);
  }

  /** Removing an element of an ascending list. */
  lemma Without(q: seq<nat>, k: nat)
    requires Ascending(q) && k < |q|
    ensures var r := q[..k] + q[k + 1..];
            Ascending(r) && forall x :: x in r <==> x in q && x != q[k]
  {
    var r := q[..k] + q[k + 1..];
    assert q == q[..k] + [q[k]] + q[k + 1..];
    assert forall i :: 0 <= i < |r| ==> r[i] == q[if i < k then i else i + 1];
  }

  /** Inserting between the smaller and the larger elements of an ascending list. */
  lemma With(q: seq<nat>, n: nat, x: nat)
    requires Ascending(q) && n <= |q| && (n > 0 ==> q[n - 1] < x) && (n < |q| ==> x < q[n])
    ensures var r := q[..n] + [x] + q[n..];
            Ascending(r) && forall y :: y in r <==> y in q || y == x
  {
    hide Ascending;
    assert q == q[..n] + q[n..];
    WithMembers(q[..n], q[n..], x);
    WithAscends(q, n, x);
  }

  lemma WithAscends(q: seq<nat>, n: nat, x: nat)
    requires Ascending(q) && n <= |q| && (n > 0 ==> q[n - 1] < x) && (n < |q| ==> x < q[n])
    ensures Ascending(q[..n] + [x] + q[n..])
  {
    forall i, j | 0 <= i < j <= |q|
      ensures (q[..n] + [x] + q[n..])[i] < (q[..n] + [x] + q[n..])[j]
    {
      WithPair(q, n, x, i, j);
    }
  }

  lemma WithPair(q: seq<nat>, n: nat, x: nat, i: nat, j: nat)
    requires Ascending(q) && n <= |q| && (n > 0 ==> q[n - 1] < x) && (n < |q| ==> x < q[n]) && i < j <= |q|
    ensures (q[..n] + [x] + q[n..])[i] < (q[..n] + [x] + q[n..])[j]
  {
    hide Ascending;
    WithAt(q, n, x, i);
    WithAt(q, n, x, j);
    if i < n { Ordered(q, i, n - 1); }
    if n < j { Ordered(q, n, j - 1); }
    if j < n { Ordered(q, i, j); }
    if n < i { Ordered(q, i - 1, j - 1); }
  }

  lemma WithAt(q: seq<nat>, n: nat, x: nat, i: nat)
    requires n <= |q| && i <= |q|
    ensures (q[..n] + [x] + q[n..])[i] == if i < n then q[i] else if i == n then x else q[i - 1]
  {
  }

  lemma Ordered(q: seq<nat>, i: nat, j: nat)
    requires Ascending(q) && i <= j < |q|
    ensures q[i] <= q[j] && (i < j ==> q[i] < q[j])
  {
  }

  lemma WithMembers(low: seq<nat>, high: seq<nat>, x: nat)
    ensures forall y :: y in low + [x] + high <==> y in low + high || y == x
  {
  }

  lemma ReleaseGood(h: Heap, arenas: seq<Arena>, a: nat)
    requires Good(h, arenas) && a in h.blocks && h.blocks[a].status == Live
    ensures Good(Release(h, a), arenas)
  {
    var n := Below(h.free, a);
    var h' := Release(h, a);
    StatusTiles(h.blocks, h'.blocks, arenas, a, if n > STEP_LIMIT + 1 then Leaked else Free);
    if n <= STEP_LIMIT + 1 {
      InsertListed(h, a, n, h');
    }
  }

  lemma InsertListed(h: Heap, a: nat, n: nat, h': Heap)
    requires FreeList(h.blocks, h.free) && a in h.blocks && h.blocks[a].status == Live && n == Below(h.free, a)
    requires h'.free == h.free[..n] + [a] + h.free[n..]
    requires h'.blocks == h.blocks[a := h.blocks[a].(status := Free)]
    ensures FreeList(h'.blocks, h'.free)
  {
    assert n < |h.free| ==> h.free[n] in h.free;
    With(h.free, n, a);
    hide Below, Ascending;
  }

  // ---- First fit is exact ----

  /** The block of `n` payload bytes at header `a` was cut out of free block `a`: all of it, when no more
      than 46 bytes are left over, or the next multiple of 16 bytes, with the rest a free block behind it. */
  ghost predicate CutFor(blocks: Blocks, blocks': Blocks, a: nat, n: nat, size: nat)
    requires a in blocks
  {
    && size <= n < size + 47 && n % 16 == 0
    && (n == blocks[a].size ==> blocks' == blocks[a := Block(n, Live)])
    && (n != blocks[a].size ==>
          && n + 32 <= blocks[a].size && (n < size + 16 || n == 16)
          && a + 16 + n !in blocks
          && blocks' == blocks[a := Block(n, Live)][a + 16 + n := Block(blocks[a].size - n - 16, Free)])
  }

  /** First fit, exactly. For sizes kmalloc accepts the result is NULL just when every free block has fewer
      than `size` payload bytes; otherwise it is the payload, 16-aligned, of the lowest free block that has
      as many, and that block keeps fewer than `size` + 47 bytes. Nothing else in the heap changes. */
  lemma FirstFitExact(h: Heap, arenas: seq<Arena>, size: nat)
    requires Good(h, arenas) && Listed(h)
    ensures var (h', p) := Kmalloc(h, size);
            && (p == 0 <==> size == 0 || size > 0x1000_0000
                            || forall b :: b in h.blocks && h.blocks[b].status == Free ==> h.blocks[b].size < size)
            && (p == 0 ==> h' == h)
            && (p != 0 ==>
                  && p % 16 == 0 && p >= 16
                  && var a := p - 16;
                     && a in h.blocks && h.blocks[a].status == Free && h.blocks[a].size >= size
                     && (forall b :: b in h.blocks && h.blocks[b].status == Free && b < a ==> h.blocks[b].size < size)
                     && a in h'.blocks && CutFor(h.blocks, h'.blocks, a, h'.blocks[a].size, size))
  {
    if 1 <= size <= MAX_ALLOC {
      var r := Rounded(size);
      var k := FirstFit(h, r, 0);
      LowestFit(h, arenas, r);
      RoomIsRoom(h, arenas, size);
      if k < |h.free| {
        TakenShape(h, arenas, k, size);
      }
      GoodAligned(h, arenas);
      hide Good, FirstFit, Take, Rounded, CutFor;
    }
  }

  /** Payloads are multiples of 16 and at least 16 bytes, so rounding the request up changes nothing. */
  lemma RoomIsRoom(h: Heap, arenas: seq<Arena>, size: nat)
    requires Good(h, arenas) && size >= 1
    ensures size <= Rounded(size) < size + 16 || Rounded(size) == 16
    ensures forall b :: b in h.blocks ==> (h.blocks[b].size < Rounded(size) <==> h.blocks[b].size < size)
  {
    forall b | b in h.blocks
      ensures h.blocks[b].size < Rounded(size) <==> h.blocks[b].size < size
    {
      hide Covers, FreeList, Apart;
      Sixteens(h.blocks[b].size, size);
    }
  }

  lemma Sixteens(n: nat, size: nat)
    requires n % 16 == 0 && n >= 16
    ensures n < (size + 15) / 16 * 16 <==> n < size
  {
  }

  /** No free block below the first fit has room. */
  lemma LowestFit(h: Heap, arenas: seq<Arena>, r: nat)
    requires Good(h, arenas) && Listed(h)
    ensures var k := FirstFit(h, r, 0);
            && (k < |h.free| ==> h.blocks[h.free[k]].status == Free)
            && forall b :: b in h.blocks && h.blocks[b].status == Free && (k == |h.free| || b < h.free[k]) ==> h.blocks[b].size < r
  {
    ListElements(h.blocks, h.free);
    var k := FirstFit(h, r, 0);
    forall b | b in h.blocks && h.blocks[b].status == Free && (k == |h.free| || b < h.free[k])
      ensures h.blocks[b].size < r
    {
      assert b in h.free;
      var i :| 0 <= i < |h.free| && h.free[i] == b;
      if k < i { assert false; }
    }
  }

  /** The block given out, and all others as they were. */
  lemma TakenShape(h: Heap, arenas: seq<Arena>, k: nat, size: nat)
    requires Good(h, arenas) && k < |h.free| && h.free[k] in h.blocks && h.blocks[h.free[k]].size >= Rounded(size) && size >= 1
    ensures var a, h' := h.free[k], Take(h, k, Rounded(size));
            a in h'.blocks && CutFor(h.blocks, h'.blocks, a, h'.blocks[a].size, size)
  {
    var a, r := h.free[k], Rounded(size);
    assert h.blocks[a].size % 16 == 0 && r % 16 == 0;
    if h.blocks[a].size >= r + HEADER + MIN_ALLOC {
      SplitOwned(h.blocks, Take(h, k, r).blocks, a, r, Live, Free);
    }
    hide Covers, FreeList, Apart;
  }

  lemma GoodAligned(h: Heap, arenas: seq<Arena>)
    requires Good(h, arenas)
    ensures forall b :: b in h.blocks ==> b % 16 == 0 && (b + HEADER) % 16 == 0
  {
    forall b | b in h.blocks
      ensures b % 16 == 0 && (b + HEADER) % 16 == 0
    {
      hide Covers, FreeList, Apart;
    }
  }

  // ---- Whole runs ----

  datatype Op = Malloc(size: nat) | Kfree(addr: nat)

  /** kfree is called on live pointers only. */
  predicate Callable(h: Heap, op: Op) {
    op.Kfree? ==> op.addr in h.blocks && h.blocks[op.addr].status == Live
  }

  function Step(h: Heap, op: Op): Heap
    requires Listed(h) && Callable(h, op)
  {
    match op
    case Malloc(size) => Kmalloc(h, size).0
    case Kfree(a) => Release(h, a)
  }

  ghost predicate Runnable(h: Heap, ops: seq<Op>)
    decreases |ops|
  {
    ops == [] || (Listed(h) && Callable(h, ops[0]) && Runnable(Step(h, ops[0]), ops[1..]))
  }

  function Run(h: Heap, ops: seq<Op>): Heap
    requires Runnable(h, ops)
    decreases |ops|
  {
    if ops == [] then h else Run(Step(h, ops[0]), ops[1..])
  }

  /** Every block of the finer partition lies inside a block of the coarser one, and no boundary of
      the coarser one is lost: blocks are split but never merged. */
  ghost predicate Refines(fine: Blocks, coarse: Blocks) {
    && (forall a :: a in coarse ==> a in fine)
    && (forall a :: a in fine ==> Inside(fine, coarse, a))
  }

  ghost predicate Inside(fine: Blocks, coarse: Blocks, a: nat)
    requires a in fine
  {
    exists b :: b in coarse && b <= a && End(fine, a) <= End(coarse, b)
  }

  lemma RefinesSelf(x: Blocks)
    ensures Refines(x, x)
  {
  }

  lemma RefinesTrans(x: Blocks, y: Blocks, z: Blocks)
    requires Refines(x, y) && Refines(y, z)
    ensures Refines(x, z)
  {
    forall a | a in x
      ensures Inside(x, z, a)
    {
      var b :| b in y && b <= a && End(x, a) <= End(y, b);
      assert Inside(y, z, b);
      var c :| c in z && c <= b && End(y, b) <= End(z, c);
      assert c in z && c <= a && End(x, a) <= End(z, c);
    }
  }

  lemma TakeRefines(h: Heap, k: nat, r: nat)
    requires Apart(h.blocks) && k < |h.free| && h.free[k] in h.blocks && h.blocks[h.free[k]].size >= r
    ensures Refines(Take(h, k, r).blocks, h.blocks)
  {
    var a, h' := h.free[k], Take(h, k, r);
    forall b | b in h'.blocks
      ensures Inside(h'.blocks, h.blocks, b)
    {
      var c := if b in h.blocks then b else a;
      assert c in h.blocks && c <= b && End(h'.blocks, b) <= End(h.blocks, c) by {
        if h.blocks[a].size >= r + HEADER + MIN_ALLOC { SplitOwned(h.blocks, h'.blocks, a, r, Live, Free); }
      }
    }
  }

  lemma ReleaseRefines(h: Heap, a: nat)
    requires a in h.blocks
    ensures Refines(Release(h, a).blocks, h.blocks)
  {
    var h' := Release(h, a);
    forall b | b in h'.blocks
      ensures Inside(h'.blocks, h.blocks, b)
    {
      assert b in h.blocks && End(h'.blocks, b) == End(h.blocks, b);
    }
  }

  lemma GoodListed(h: Heap, arenas: seq<Arena>)
    requires Good(h, arenas)
    ensures Listed(h)
  {
    ListElements(h.blocks, h.free);
  }

  lemma StepGood(h: Heap, arenas: seq<Arena>, op: Op)
    requires Good(h, arenas) && Listed(h) && Callable(h, op)
    ensures Good(Step(h, op), arenas) && Refines(Step(h, op).blocks, h.blocks)
  {
    match op
    case Malloc(size) =>
      MallocGood(h, arenas, size);
    case Kfree(a) =>
      ReleaseGood(h, arenas, a);
      ReleaseRefines(h, a);
  }

  lemma MallocGood(h: Heap, arenas: seq<Arena>, size: nat)
    requires Good(h, arenas) && Listed(h)
    ensures Good(Kmalloc(h, size).0, arenas) && Refines(Kmalloc(h, size).0.blocks, h.blocks)
  {
    RefinesSelf(h.blocks);
    var r := Rounded(size);
    var k := FirstFit(h, r, 0);
    hide Refines, Take, Rounded;
    if 1 <= size <= MAX_ALLOC && k < |h.free| {
      TakeGood(h, arenas, k, r);
      TakeRefines(h, k, r);
    }
  }

  /** Heap partition over every run: the free list stays strictly ascending and complete, free, live
      and dropped blocks tile the arenas byte for byte, and later partitions refine earlier ones. */
  lemma {:induction false} RunGood(h: Heap, arenas: seq<Arena>, ops: seq<Op>)
    requires Good(h, arenas) && Runnable(h, ops)
    ensures Good(Run(h, ops), arenas) && Refines(Run(h, ops).blocks, h.blocks)
    decreases |ops|
  {
    if ops == [] {
      RefinesSelf(h.blocks);
    } else {
      StepGood(h, arenas, ops[0]);
      RunGood(Step(h, ops[0]), arenas, ops[1..]);
      RefinesTrans(Run(h, ops).blocks, Step(h, ops[0]).blocks, h.blocks);
    }
  }

  // ---- Bytes lost ----

  /** The blocks kfree has dropped. */
  function Dropped(blocks: Blocks): set<nat> {
    set b | b in blocks && blocks[b].status == Leaked
  }

  /** Every kfree of the run meets at most 1001 free blocks below the block it is given. */
  ghost predicate WithinLimit(h: Heap, ops: seq<Op>)
    requires Runnable(h, ops)
    decreases |ops|
  {
    ops != [] ==>
      && (ops[0].Kfree? ==> |set b | b in h.free && b < ops[0].addr| <= STEP_LIMIT + 1)
      && WithinLimit(Step(h, ops[0]), ops[1..])
  }

  /** kmalloc drops nothing, and kfree at most its own block. */
  lemma StepDropped(h: Heap, arenas: seq<Arena>, op: Op)
    requires Good(h, arenas) && Listed(h) && Callable(h, op)
    ensures Dropped(Step(h, op).blocks)
            == if op.Kfree? && |set b | b in h.free && b < op.addr| > STEP_LIMIT + 1 then Dropped(h.blocks) + {op.addr}
               else Dropped(h.blocks)
    ensures op.Kfree? ==> op.addr !in Dropped(h.blocks)
  {
    match op {
      case Malloc(size) => MallocDropped(h, arenas, size);
      case Kfree(a) =>
        CountBelow(h.free, a);
        var h' := Release(h, a);
        assert forall b :: b in h'.blocks <==> b in h.blocks;
    }
  }

  lemma MallocDropped(h: Heap, arenas: seq<Arena>, size: nat)
    requires Good(h, arenas) && Listed(h)
    ensures Dropped(Kmalloc(h, size).0.blocks) == Dropped(h.blocks)
  {
    var r := Rounded(size);
    var k := FirstFit(h, r, 0);
    hide Rounded, FirstFit;
    if 1 <= size <= MAX_ALLOC && k < |h.free| {
      ListElements(h.blocks, h.free);
      var a, h' := h.free[k], Take(h, k, r);
      if h.blocks[a].size >= r + HEADER + MIN_ALLOC { SplitOwned(h.blocks, h'.blocks, a, r, Live, Free); }
      hide Good;
      assert forall b :: b in Dropped(h'.blocks) <==> b in Dropped(h.blocks);
    }
  }

  lemma {:induction false} RunKeepsDropped(h: Heap, arenas: seq<Arena>, ops: seq<Op>)
    requires Good(h, arenas) && Runnable(h, ops)
    ensures Dropped(h.blocks) <= Dropped(Run(h, ops).blocks)
    decreases |ops|
  {
    if ops != [] {
      StepGood(h, arenas, ops[0]);
      StepDropped(h, arenas, ops[0]);
      hide Step, Good, Dropped;
      RunKeepsDropped(Step(h, ops[0]), arenas, ops[1..]);
    }
  }

  /** Over every run no further block is lost if and only if the run respects the limit of
      insert_free_block_sorted: a block once dropped stays dropped. */
  lemma {:induction false} RunLosesNothing(h: Heap, arenas: seq<Arena>, ops: seq<Op>)
    requires Good(h, arenas) && Runnable(h, ops)
    ensures WithinLimit(h, ops) <==> Dropped(Run(h, ops).blocks) == Dropped(h.blocks)
    decreases |ops|
  {
    if ops != [] {
      StepGood(h, arenas, ops[0]);
      StepDropped(h, arenas, ops[0]);
      RunKeepsDropped(Step(h, ops[0]), arenas, ops[1..]);
      hide Step, Good, Dropped;
      RunLosesNothing(Step(h, ops[0]), arenas, ops[1..]);
    }
  }

  /** From a heap without dropped blocks such a run leaves every byte of the arenas in a free or a live
      block. */
  lemma NoByteLost(h: Heap, arenas: seq<Arena>, ops: seq<Op>, p: nat)
    requires Good(h, arenas) && Runnable(h, ops) && WithinLimit(h, ops) && Dropped(h.blocks) == {}
    ensures var blocks := Run(h, ops).blocks;
            InArenas(arenas, p) <==> exists a :: a in blocks && InBlock(blocks, a, p) && blocks[a].status in {Free, Live}
  {
    hide *;
    RunGood(h, arenas, ops);
    RunLosesNothing(h, arenas, ops);
    CoveredByUsed(Run(h, ops), arenas, p);
  }

  lemma CoveredByUsed(h: Heap, arenas: seq<Arena>, p: nat)
    requires Good(h, arenas) && Dropped(h.blocks) == {}
    ensures InArenas(arenas, p) <==> exists a :: a in h.blocks && InBlock(h.blocks, a, p) && h.blocks[a].status in {Free, Live}
  {
    assert InArenas(arenas, p) <==> Owned(h.blocks, p);
    hide InBlock, InArenas, Good;
    forall a | a in h.blocks
      ensures h.blocks[a].status in {Free, Live}
    {
      assert a !in Dropped(h.blocks);
    }
  }

  /** A block is dropped exactly when more than 1001 free blocks lie below it; otherwise kfree makes
      it available again. Either way no other block changes. */
  lemma DroppedExactly(h: Heap, arenas: seq<Arena>, a: nat)
    requires Good(h, arenas) && a in h.blocks && h.blocks[a].status == Live
    ensures var h' := Release(h, a);
            if |set b | b in h.free && b < a| > 1001
            then h'.blocks == h.blocks[a := Block(h.blocks[a].size, Leaked)] && h'.free == h.free
            else h'.blocks == h.blocks[a := Block(h.blocks[a].size, Free)] && forall b :: b in h'.free <==> b in h.free || b == a
  {
    var n := Below(h.free, a);
    CountBelow(h.free, a);
    var h' := Release(h, a);
    if n <= STEP_LIMIT + 1 {
      WithMembers(h.free[..n], h.free[n..], a);
      assert h.free == h.free[..n] + h.free[n..];
    }
  }

  lemma CountBelow(free: seq<nat>, a: nat)
    requires Ascending(free)
    ensures |set b | b in free && b < a| == Below(free, a)
  {
    var n := Below(free, a);
    var s := set b | b in free && b < a;
    var low := free[..n];
    assert free == low + free[n..];
    forall b | b in free[n..]
      ensures b >= a
    {
      var i :| 0 <= i < |free[n..]| && free[n..][i] == b;
      assert free[n..][i] == free[n + i];
    }
    SetOfAscending(low);
    assert s == Members(low);
  }

  function Members(q: seq<nat>): set<nat> {
    set b | b in q
  }

  lemma {:induction false} SetOfAscending(q: seq<nat>)
    requires Ascending(q)
    ensures |Members(q)| == |q|
    decreases |q|
  {
    if q != [] {
      var front, last := q[..|q| - 1], q[|q| - 1];
      SetOfAscending(front);
      assert q == front + [last];
      assert last !in front;
      assert Members(q) == Members(front) + {last};
    } else {
      assert Members(q) == {};
    }
  }
}
