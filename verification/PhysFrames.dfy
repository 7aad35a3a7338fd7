/** Physical page frames: a bump pointer over the paging pool plus a free list threaded through the
    first word of every freed frame. */
module PhysFrames {

  const PAGE: nat := 4096
  const SLOTS: nat := 512

  /** The frames the kernel can address, 512 words each, by physical base address. */
  type Memory = map<nat, seq<nat>>

  datatype Pool = Pool(start: nat, end: nat)

  /** Memory, the frames of the free list from its head on, and the bump pointer. */
  datatype Frames = Frames(mem: Memory, free: seq<nat>, next: nat)

  function Blank(): (t: seq<nat>)
    ensures |t| == SLOTS && forall i :: 0 <= i < SLOTS ==> t[i] == 0
  {
    seq(SLOTS, i => 0)
  }

  /** Word `i` of frame `f`; addresses where there is no memory read as 0 and ignore writes. */
  function Word(mem: Memory, f: nat, i: nat): nat {
    if f in mem && i < |mem[f]| then mem[f][i] else 0
  }

  function SetWord(mem: Memory, f: nat, i: nat, w: nat): Memory {
    if f in mem && i < |mem[f]| then
      var table: seq<nat> := mem[f][i := w];
      mem[f := table]
    else mem
  }

  lemma SetWordAt(mem: Memory, t: nat, i: nat, w: nat)
    ensures forall f: nat, j: nat ::
              Word(SetWord(mem, t, i, w), f, j)
              == if f == t && j == i && t in mem && i < |mem[t]| then w else Word(mem, f, j)
    ensures forall f :: f in SetWord(mem, t, i, w) <==> f in mem
  {
  }

  predicate InPool(pool: Pool, f: nat) {
    pool.start <= f < pool.end
  }

  predicate Distinct(s: seq<nat>) {
    forall i, j :: 0 <= i < j < |s| ==> s[i] != s[j]
  }

  /** The free list starts at `head` and runs through the first words of its frames. */
  ghost predicate Linked(mem: Memory, head: nat, free: seq<nat>)
    decreases |free|
  {
    if free == [] then head == 0
    else head == free[0] && head != 0 && Linked(mem, Word(mem, head, 0), free[1..])
  }

  ghost predicate Backed(pool: Pool, mem: Memory) {
    && (forall f :: f in mem ==> |mem[f]| == SLOTS)
    && (forall f: nat :: InPool(pool, f) && f % PAGE == 0 ==> f in mem)
  }

  predicate GoodPool(pool: Pool) {
    pool.start % PAGE == 0 && pool.end % PAGE == 0 && pool.start <= pool.end && (pool.start == 0 ==> pool.end == 0)
  }

  predicate PoolFrame(pool: Pool, f: nat) {
    InPool(pool, f) && f % PAGE == 0
  }

  /** Every frame on the free list was handed out before, and no frame is there twice. */
  ghost predicate GoodList(pool: Pool, s: Frames) {
    && pool.start <= s.next <= pool.end && s.next % PAGE == 0
    && Distinct(s.free)
    && forall f :: f in s.free ==> PoolFrame(pool, f) && f < s.next
  }

  ghost predicate Good(pool: Pool, s: Frames) {
    GoodPool(pool) && Backed(pool, s.mem) && GoodList(pool, s)
  }

  /** A frame the allocator will not hand out: neither on the free list nor still to be bumped over. */
  predicate Taken(pool: Pool, s: Frames, f: nat) {
    f !in s.free && !(s.next <= f < pool.end)
  }

  /** The pool frames handed out and not given back. */
  ghost function Out(pool: Pool, s: Frames): set<nat> {
    set f | pool.start <= f < pool.end && f % PAGE == 0 && Taken(pool, s, f)
  }

  // ---- Operations ----

  /** alloc_physical_page: pop, else bump; 0 when both are exhausted. */
  function Alloc(pool: Pool, s: Frames): (Frames, nat) {
    if s.free != [] then (Frames(s.mem[s.free[0] := Blank()], s.free[1..], s.next), s.free[0])
    else if s.next == 0 || s.next >= pool.end then (s, 0)
    else (Frames(s.mem[s.next := Blank()], s.free, s.next + PAGE), s.next)
  }

  function HeadOf(free: seq<nat>): nat {
    if free == [] then 0 else free[0]
  }

  /** free_physical_page: frames outside the pool are ignored. */
  function Release(pool: Pool, s: Frames, f: nat): Frames {
    if f == 0 || !InPool(pool, f) then s
    else Frames(SetWord(s.mem, f, 0, HeadOf(s.free)), [f] + s.free, s.next)
  }

  // ---- The free list ----

  /** Writing to a frame that is not on the list leaves the list alone. */
  lemma {:induction false} LinkedElsewhere(mem: Memory, mem': Memory, head: nat, free: seq<nat>)
    requires Linked(mem, head, free)
    requires forall f :: f in free ==> Word(mem', f, 0) == Word(mem, f, 0)
    ensures Linked(mem', head, free)
    decreases |free|
  {
    if free != [] {
      assert free[0] in free;
      assert forall f :: f in free[1..] ==> f in free;
      LinkedElsewhere(mem, mem', Word(mem, head, 0), free[1..]);
    }
  }

  lemma AllocLinked(pool: Pool, s: Frames, head: nat)
    requires Good(pool, s) && Linked(s.mem, head, s.free)
    ensures var (s', r) := Alloc(pool, s);
            Linked(s'.mem, if s.free == [] then head else Word(s.mem, head, 0), s'.free)
  {
    var (s', r) := Alloc(pool, s);
    if s.free != [] {
      assert forall f :: f in s.free[1..] ==> f != s.free[0];
      LinkedElsewhere(s.mem, s'.mem, Word(s.mem, head, 0), s.free[1..]);
    } else {
      LinkedElsewhere(s.mem, s'.mem, head, s.free);
    }
  }

  lemma LinkedHead(mem: Memory, head: nat, free: seq<nat>)
    requires Linked(mem, head, free)
    ensures head == HeadOf(free)
  {
  }

  lemma ReleaseLinked(pool: Pool, s: Frames, head: nat, f: nat)
    requires Linked(s.mem, head, s.free) && InPool(pool, f) && f != 0
    requires f in s.mem && |s.mem[f]| == SLOTS && f !in s.free
    ensures Linked(Release(pool, s, f).mem, f, Release(pool, s, f).free)
  {
    var s' := Release(pool, s, f);
    LinkedHead(s.mem, head, s.free);
    LinkedElsewhere(s.mem, s'.mem, head, s.free);
    assert s'.free[1..] == s.free;
  }

  /** The free list runs through the frames from its head on. */
  ghost predicate Threaded(s: Frames) {
    Linked(s.mem, HeadOf(s.free), s.free)
  }

  lemma ReleaseThreads(pool: Pool, s: Frames, f: nat)
    requires Good(pool, s) && f % PAGE == 0 && Taken(pool, s, f) && Threaded(s)
    ensures Threaded(Release(pool, s, f))
  {
    if InPool(pool, f) { ReleaseLinked(pool, s, HeadOf(s.free), f); }
  }

  /** A store to a frame that is not on the free list leaves the list alone. */
  lemma StoreThreads(s: Frames, t: nat, i: nat, w: nat)
    requires Threaded(s) && t !in s.free
    ensures Threaded(Frames(SetWord(s.mem, t, i, w), s.free, s.next))
  {
    SetWordAt(s.mem, t, i, w);
    LinkedElsewhere(s.mem, SetWord(s.mem, t, i, w), HeadOf(s.free), s.free);
  }

  // ---- What the operations mean for the pool ----

  /** A frame handed out was not in use; it comes back zeroed, and exactly it joins the frames in use. */
  lemma AllocFresh(pool: Pool, s: Frames)
    requires Good(pool, s)
    ensures var (s', r) := Alloc(pool, s);
            && Good(pool, s')
            && (r == 0 <==> s.free == [] && s.next == pool.end)
            && (r == 0 ==> s' == s)
            && (r != 0 ==> && PoolFrame(pool, r) && !Taken(pool, s, r)
                           && s'.mem == s.mem[r := Blank()]
                           && Out(pool, s') == Out(pool, s) + {r}
                           && forall f: nat :: f % PAGE == 0 ==> (Taken(pool, s', f) <==> Taken(pool, s, f) || f == r))
  {
    if s.free != [] {
      assert s.free[0] in s.free;
      assert forall f :: f in s.free[1..] <==> f in s.free && f != s.free[0];
    } else if s.next < pool.end {
      NextFrame(s.next, pool.end);
      var s' := Alloc(pool, s).0;
      forall f: nat
        ensures f % PAGE == 0 ==> (Taken(pool, s', f) <==> Taken(pool, s, f) || f == s.next)
      {
        if f % PAGE == 0 && s.next < f { NextFrame(s.next, f); }
      }
    }
  }

  /** How many frames the allocator can still give. */
  function Spare(pool: Pool, s: Frames): nat
    requires s.next <= pool.end
  {
    |s.free| + (pool.end - s.next) / PAGE
  }

  /** An allocation fails just when nothing is spare, and otherwise uses up one frame. */
  lemma AllocSpare(pool: Pool, s: Frames)
    requires Good(pool, s)
    ensures var (s', r) := Alloc(pool, s);
            && s'.next <= pool.end
            && (r == 0 <==> Spare(pool, s) == 0)
            && (r != 0 ==> Spare(pool, s') == Spare(pool, s) - 1)
  {
    AllocFresh(pool, s);
    if s.free == [] && s.next < pool.end {
      NextFrame(s.next, pool.end);
      assert (pool.end - s.next) / PAGE == (pool.end - (s.next + PAGE)) / PAGE + 1;
    }
  }

  lemma NextFrame(a: nat, b: nat)
    requires a % PAGE == 0 && b % PAGE == 0 && a < b
    ensures a + PAGE <= b && (a + PAGE) % PAGE == 0
  {
  }

  /** Giving a frame back is sound exactly when the pool does not know the frame or it is in use:
      the range test of the code does not see a frame given back twice. */
  lemma ReleaseSound(pool: Pool, s: Frames, f: nat)
    requires Good(pool, s) && f % PAGE == 0
    ensures Good(pool, Release(pool, s, f)) <==> !InPool(pool, f) || Taken(pool, s, f)
  {
    var s' := Release(pool, s, f);
    if InPool(pool, f) {
      assert s'.free[0] == f;
      if f !in s.free && f < s.next {
        assert forall g :: g in s'.free ==> g == f || g in s.free;
      } else if f in s.free {
        var i :| 0 <= i < |s.free| && s.free[i] == f;
        assert s'.free[i + 1] == f;
      } else {
        assert f in s'.free;
      }
    }
  }

  lemma ReleaseOut(pool: Pool, s: Frames, f: nat)
    requires Good(pool, s) && f % PAGE == 0 && Taken(pool, s, f)
    ensures Good(pool, Release(pool, s, f))
    ensures Out(pool, Release(pool, s, f)) == Out(pool, s) - {f}
    ensures forall g :: InPool(pool, f) ==> (Taken(pool, Release(pool, s, f), g) <==> Taken(pool, s, g) && g != f)
  {
    ReleaseSound(pool, s, f);
    var s' := Release(pool, s, f);
    assert InPool(pool, f) ==> forall g :: g in s'.free <==> g == f || g in s.free;
  }

  /** After a frame is given back twice, the next two allocations return the same frame. */
  lemma ReleaseTwice(pool: Pool, s: Frames, f: nat)
    requires Good(pool, s) && PoolFrame(pool, f) && Taken(pool, s, f) && f != 0
    ensures var s1 := Release(pool, Release(pool, s, f), f);
            var (s2, a) := Alloc(pool, s1);
            a == f && Alloc(pool, s2).1 == f
  {
  }

  // ---- Whole runs ----

  datatype FrameOp = Get | Give(frame: nat)

  ghost predicate Allowed(pool: Pool, s: Frames, op: FrameOp) {
    op.Give? ==> op.frame % PAGE == 0 && Taken(pool, s, op.frame)
  }

  function FrameStep(pool: Pool, s: Frames, op: FrameOp): Frames {
    match op
    case Get => Alloc(pool, s).0
    case Give(f) => Release(pool, s, f)
  }

  ghost predicate AllowedRun(pool: Pool, s: Frames, ops: seq<FrameOp>)
    decreases |ops|
  {
    ops != [] ==> Allowed(pool, s, ops[0]) && AllowedRun(pool, FrameStep(pool, s, ops[0]), ops[1..])
  }

  function FrameRun(pool: Pool, s: Frames, ops: seq<FrameOp>): Frames
    decreases |ops|
  {
    if ops == [] then s else FrameRun(pool, FrameStep(pool, s, ops[0]), ops[1..])
  }

  /** The frames below the bump pointer, a frame each page. */
  ghost function Bumped(pool: Pool, next: nat): set<nat> {
    set f | pool.start <= f < next && f % PAGE == 0
  }

  /** Conservation over every run: the bumped frames are split between the free list, duplicate-free,
      and the frames in use, and frames of the run that were never given back stay in use. */
  lemma {:induction false} FramesConserved(pool: Pool, s: Frames, ops: seq<FrameOp>)
    requires Good(pool, s) && AllowedRun(pool, s, ops)
    ensures var s' := FrameRun(pool, s, ops);
            && Good(pool, s') && s.next <= s'.next
            && Out(pool, s') !! (set f | f in s'.free)
            && Out(pool, s') + (set f | f in s'.free) == Bumped(pool, s'.next)
            && forall f :: f in Out(pool, s) && Give(f) !in ops ==> f in Out(pool, s')
    decreases |ops|
  {
    if ops != [] {
      var s1 := FrameStep(pool, s, ops[0]);
      match ops[0] {
        case Get => AllocFresh(pool, s);
        case Give(f) => ReleaseOut(pool, s, f);
      }
      FramesConserved(pool, s1, ops[1..]);
      assert forall op :: op in ops <==> op == ops[0] || op in ops[1..];
    }
  }
}
