/** Address spaces: teardown conserves frames, mapping fresh frames keeps ownership, user stacks. */
module PageSpaces {
  import opened Options
  import opened PhysFrames
  import opened PageTables
  import opened PageTeardown

  /** The lower half below `root` is exclusively owned, by frames the allocator counts as in use. */
  ghost predicate Owner(pool: Pool, s: Frames, root: nat) {
    && Good(pool, s) && Exclusive(pool, s.mem, root)
    && root != 0 && root % PAGE == 0 && Taken(pool, s, root)
    && forall f :: IsLower(pool, s.mem, root, f) ==> Taken(pool, s, f)
  }

  /** The frames the teardown of `root` gives back. */
  ghost predicate Returned(pool: Pool, s: Frames, root: nat, f: nat) {
    InPool(pool, f) && (f == root || IsLower(pool, s.mem, root, f))
  }

  lemma OwnedIsLower(pool: Pool, mem: Memory, root: nat)
    ensures forall f :: f in Owned(pool, mem, root, LEVELS, LOWER) <==> IsLower(pool, mem, root, f)
  {
    hide Owned, Beyond, Ends;
    assert Reach(mem, root, []) == Some(root);
    forall f
      ensures f in Owned(pool, mem, root, LEVELS, LOWER) <==> IsLower(pool, mem, root, f)
    {
      if f in Owned(pool, mem, root, LEVELS, LOWER) {
        OwnedReached(pool, mem, root, [], LOWER, f);
      }
      if q :| Beyond(q, [], LOWER) && Ends(pool, mem, root, q, f) {
        ReachedOwned(pool, mem, root, [], LOWER, q, f);
      }
    }
  }

  lemma OwnerTidy(pool: Pool, s: Frames, root: nat)
    requires Owner(pool, s, root)
    ensures Tidy(pool, s, root, LEVELS, LOWER)
  {
    OwnedDistinct(pool, s.mem, root, [], LOWER);
    OwnedIsLower(pool, s.mem, root);
  }

  /** Teardown puts every pool frame of the lower half, and the root, on the free list exactly once
      (a good list has no duplicates), page frames before their page table and so on up; nothing else
      joins the list, leaves it or changes contents. */
  lemma DestroyConserves(pool: Pool, s: Frames, root: nat)
    requires Owner(pool, s, root)
    ensures var s' := Destroy(pool, s, root);
            && Good(pool, s') && s'.next == s.next && (Threaded(s) ==> Threaded(s'))
            && s'.free == Pushed(pool, s.free, Owned(pool, s.mem, root, LEVELS, LOWER) + [root])
            && (forall f :: f in s'.free <==> f in s.free || Returned(pool, s, root, f))
            && (forall f :: f in Out(pool, s') <==> f in Out(pool, s) && !Returned(pool, s, root, f))
            && (forall f, i :: f != root && !IsLower(pool, s.mem, root, f) ==> Word(s'.mem, f, i) == Word(s.mem, f, i))
  {
    hide IsLower, Exclusive;
    OwnerTidy(pool, s, root);
    OwnedIsLower(pool, s.mem, root);
    var owned := Owned(pool, s.mem, root, LEVELS, LOWER);
    ClearReleases(pool, s, root, LEVELS, LOWER);
    var s1 := ClearEntries(pool, s, root, LEVELS, LOWER);
    hide Owned, ClearEntries;
    assert Taken(pool, s1, root);
    ReleaseOut(pool, s1, root);
    if Threaded(s1) { ReleaseThreads(pool, s1, root); }
    PushedOn(pool, s.free, owned, [root]);
    PushedOne(pool, s1.free, root);
    SetWordAt(s1.mem, root, 0, HeadOf(s1.free));
    hide Pushed, Good, SetWord, Word, Threaded;
    assert forall f :: f in owned + [root] <==> f in owned || f == root;
  }

  /** The walk from `root` depends on its tables alone. */
  lemma {:induction false} WalkSame(mem: Memory, mem': Memory, root: nat, q: Path)
    requires forall p, i :: TablePath(p) && Reach(mem, root, p).Some?
                            ==> Word(mem', Reach(mem, root, p).value, i) == Word(mem, Reach(mem, root, p).value, i)
    requires |q| <= 4 && Slotted(q)
    ensures Reach(mem', root, q) == Reach(mem, root, q)
    ensures |q| == 4 ==> EntryAt(mem', root, q) == EntryAt(mem, root, q)
    decreases |q|
  {
    if q != [] {
      var q' := q[..|q| - 1];
      WalkSame(mem, mem', root, q');
      assert TablePath(q');
    }
  }

  /** Another address space whose tables the torn-down one does not own keeps all its translations,
      and its tables stay in use: no later allocation returns one of them. */
  lemma DestroySparesOthers(pool: Pool, s: Frames, root: nat, other: nat)
    requires Owner(pool, s, root) && Space(pool, s, other)
    requires forall f :: IsReached(s.mem, other, f) ==> f != root && !IsLower(pool, s.mem, root, f)
    ensures var s' := Destroy(pool, s, root);
            && Space(pool, s', other) && SamePages(s.mem, s'.mem, other)
            && forall f :: IsReached(s.mem, other, f) <==> IsReached(s'.mem, other, f)
  {
    hide *;
    TablesUntouched(pool, s, root, other);
    var s' := Destroy(pool, s, root);
    SameWalk(s.mem, s'.mem, other);
    StillSpace(pool, s, s', other);
    SameTables(s.mem, s'.mem, other);
  }

  lemma TablesUntouched(pool: Pool, s: Frames, root: nat, other: nat)
    requires Owner(pool, s, root) && Space(pool, s, other)
    requires forall f :: IsReached(s.mem, other, f) ==> f != root && !IsLower(pool, s.mem, root, f)
    ensures var s' := Destroy(pool, s, root);
            && Good(pool, s') && s'.next == s.next
            && (forall f :: IsReached(s.mem, other, f) ==> f in s'.mem && f !in s'.free)
            && (forall f, i :: IsReached(s.mem, other, f) ==> Word(s'.mem, f, i) == Word(s.mem, f, i))
  {
    DestroyConserves(pool, s, root);
    DestroyDomain(pool, s, root);
    hide Destroy, IsLower, Pushed, Owned, Exclusive, Reach, Out, Word;
    forall f | IsReached(s.mem, other, f)
      ensures f in s.mem && f !in s.free
    {
      var p :| TablePath(p) && Reach(s.mem, other, p) == Some(f);
      assert Tree(s.mem, other) && Held(pool, s, other);
    }
  }

  lemma DestroyDomain(pool: Pool, s: Frames, root: nat)
    requires Owner(pool, s, root)
    ensures forall f :: f in Destroy(pool, s, root).mem <==> f in s.mem
  {
    hide IsLower, Exclusive;
    OwnerTidy(pool, s, root);
    ClearReleases(pool, s, root, LEVELS, LOWER);
  }

  /** Address spaces with the same walk. */
  ghost predicate SameReach(mem: Memory, mem': Memory, root: nat) {
    forall q :: TablePath(q) ==> Reach(mem', root, q) == Reach(mem, root, q)
  }

  lemma SameWalk(mem: Memory, mem': Memory, root: nat)
    requires forall f, i :: IsReached(mem, root, f) ==> Word(mem', f, i) == Word(mem, f, i)
    ensures SameReach(mem, mem', root) && SamePages(mem, mem', root)
  {
    hide Reach, Word;
    forall p, i | TablePath(p) && Reach(mem, root, p).Some?
      ensures Word(mem', Reach(mem, root, p).value, i) == Word(mem, Reach(mem, root, p).value, i)
    {
      assert IsReached(mem, root, Reach(mem, root, p).value);
    }
    forall q | |q| <= 4 && Slotted(q)
      ensures Reach(mem', root, q) == Reach(mem, root, q)
      ensures |q| == 4 ==> EntryAt(mem', root, q) == EntryAt(mem, root, q)
    {
      WalkSame(mem, mem', root, q);
    }
  }

  lemma SameTables(mem: Memory, mem': Memory, root: nat)
    requires SameReach(mem, mem', root)
    ensures forall f :: IsReached(mem, root, f) <==> IsReached(mem', root, f)
  {
    hide Reach;
  }

  lemma StillSpace(pool: Pool, s: Frames, s': Frames, other: nat)
    requires Space(pool, s, other) && Good(pool, s') && s'.next == s.next
    requires SameReach(s.mem, s'.mem, other)
    requires forall f :: IsReached(s.mem, other, f) ==> f in s'.mem && f !in s'.free
    ensures Space(pool, s', other)
  {
    hide Reach;
    forall p | TablePath(p) && Reach(s'.mem, other, p).Some?
      ensures IsTable(s'.mem, Reach(s'.mem, other, p).value) && Taken(pool, s', Reach(s'.mem, other, p).value)
    {
      assert IsReached(s.mem, other, Reach(s.mem, other, p).value);
    }
  }

  // ---- Mapping into an owned lower half ----

  /** A frame that may be mapped without giving the lower half a second way to it. */
  ghost predicate Mappable(pool: Pool, s: Frames, root: nat, f: nat) {
    InPool(pool, f) ==> Taken(pool, s, f) && f != root && !IsLower(pool, s.mem, root, f)
  }

  /** Where a frame the walk ends at after map_page comes from. */
  lemma EndsAfterMap(pool: Pool, s: Frames, s': Frames, root: nat, page: Path, e: nat, q: Path, f: nat)
    requires PagePath(page) && Beyond(q, [], LOWER) && Ends(pool, s'.mem, root, q, f)
    requires Extends(pool, s, s', root, page)
    requires Updated(s.mem, s'.mem, root, page, e) || SamePages(s.mem, s'.mem, root)
    ensures Ends(pool, s.mem, root, q, f) || (|q| < LEVELS && NewFrame(pool, s, s', f)) || (q == page && f == Addr(e) && Present(e) && InPool(pool, f))
  {
    if |q| < LEVELS {
      assert SameOrNew(pool, s, s', root, page, q);
    } else {
      assert PagePath(q);
      assert Translate(s'.mem, root, q).Some?;
    }
  }

  /** The three ways agree on the path. */
  lemma MapKeepsExclusive(pool: Pool, s: Frames, s': Frames, root: nat, page: Path, e: nat)
    requires Owner(pool, s, root) && PagePath(page) && Tree(s'.mem, root) && Extends(pool, s, s', root, page)
    requires Updated(s.mem, s'.mem, root, page, e) || SamePages(s.mem, s'.mem, root)
    requires Present(e) ==> Mappable(pool, s, root, Addr(e))
    ensures Exclusive(pool, s'.mem, root)
    ensures forall f :: IsLower(pool, s'.mem, root, f) ==>
                          IsLower(pool, s.mem, root, f) || NewFrame(pool, s, s', f) || (Present(e) && InPool(pool, f) && f == Addr(e))
  {
    hide Extends, Updated, SamePages, Reach, Taken, Good;
    forall q, q', f | Beyond(q, [], LOWER) && Beyond(q', [], LOWER) && Ends(pool, s'.mem, root, q, f) && Ends(pool, s'.mem, root, q', f)
      ensures q == q'
    {
      EndsAfterMap(pool, s, s', root, page, e, q, f);
      EndsAfterMap(pool, s, s', root, page, e, q', f);
      if |q| < LEVELS && |q'| < LEVELS {
        OneWay(s'.mem, root, q, q');
      } else {
        assert Ends(pool, s.mem, root, q, f) || Ends(pool, s.mem, root, q', f) ==> IsLower(pool, s.mem, root, f);
      }
    }
    forall f | IsLower(pool, s'.mem, root, f)
      ensures IsLower(pool, s.mem, root, f) || NewFrame(pool, s, s', f) || (Present(e) && InPool(pool, f) && f == Addr(e))
    {
      var q :| Beyond(q, [], LOWER) && Ends(pool, s'.mem, root, q, f);
      EndsAfterMap(pool, s, s', root, page, e, q, f);
    }
  }

  /** Mapping keeps the ownership; every frame it takes becomes a table of the lower half, and frames
      reached by other paths are still reached. */
  lemma MapKeepsOwner(pool: Pool, s: Frames, root: nat, page: Path, e: nat)
    requires Space(pool, s, root) && Owner(pool, s, root) && PagePath(page) && page[0] < LOWER
    requires Present(e) ==> Mappable(pool, s, root, Addr(e))
    ensures var (s', ok) := MapPage(pool, s, root, page, e);
            && Space(pool, s', root) && Owner(pool, s', root)
            && (forall f: nat :: PoolFrame(pool, f) && Taken(pool, s', f) && !Taken(pool, s, f) ==> IsLower(pool, s'.mem, root, f))
            && (forall q, f :: Beyond(q, [], LOWER) && Ends(pool, s.mem, root, q, f) && (q != page || !ok) ==> Ends(pool, s'.mem, root, q, f))
  {
    hide MapPage, Reach, Missing, Spare, Tree;
    MapRefines(pool, s, root, page, e);
    var (s', ok) := MapPage(pool, s, root, page, e);
    SpaceTree(pool, s', root);
    MapKeepsExclusive(pool, s, s', root, page, e);
    forall f: nat | PoolFrame(pool, f) && Taken(pool, s', f) && !Taken(pool, s, f)
      ensures IsLower(pool, s'.mem, root, f)
    {
      NewIsLower(pool, s, s', root, page, f);
    }
    forall q, f | Beyond(q, [], LOWER) && Ends(pool, s.mem, root, q, f) && (q != page || !ok)
      ensures Ends(pool, s'.mem, root, q, f)
    {
      EndsStay(pool, s, s', root, page, e, q, f);
    }
    OwnerAfter(pool, s, s', root, page, e);
  }

  lemma SpaceTree(pool: Pool, s: Frames, root: nat)
    requires Space(pool, s, root)
    ensures Tree(s.mem, root)
  {
  }

  lemma OwnerAfter(pool: Pool, s: Frames, s': Frames, root: nat, page: Path, e: nat)
    requires Owner(pool, s, root) && Good(pool, s') && Exclusive(pool, s'.mem, root) && Extends(pool, s, s', root, page)
    requires Present(e) ==> Mappable(pool, s, root, Addr(e))
    requires forall f :: IsLower(pool, s'.mem, root, f) ==>
                           IsLower(pool, s.mem, root, f) || NewFrame(pool, s, s', f) || (Present(e) && InPool(pool, f) && f == Addr(e))
    ensures Owner(pool, s', root)
  {
    hide Taken, Good, Exclusive, InPool;
    forall f | IsLower(pool, s'.mem, root, f)
      ensures Taken(pool, s', f)
    {
      if IsLower(pool, s.mem, root, f) { LowerAligned(pool, s.mem, root, f); }
    }
  }

  lemma LowerAligned(pool: Pool, mem: Memory, root: nat, f: nat)
    requires IsLower(pool, mem, root, f)
    ensures f % PAGE == 0
  {
  }

  lemma NewIsLower(pool: Pool, s: Frames, s': Frames, root: nat, page: Path, f: nat)
    requires Space(pool, s, root) && Owner(pool, s, root) && PagePath(page) && page[0] < LOWER
    requires Extends(pool, s, s', root, page)
    requires PoolFrame(pool, f) && Taken(pool, s', f) && !Taken(pool, s, f)
    ensures IsLower(pool, s'.mem, root, f)
  {
    hide Taken, Good, Exclusive, Reach;
    var q :| TablePath(q) && Reach(s'.mem, root, q) == Some(f);
    assert SameOrNew(pool, s, s', root, page, q);
    assert Reach(s.mem, root, q) == None;
    assert q != [] by { RootReached(s.mem, root); }
    assert Beyond(q, [], LOWER) && Ends(pool, s'.mem, root, q, f);
  }

  lemma RootReached(mem: Memory, root: nat)
    ensures Reach(mem, root, []) == Some(root)
  {
  }

  lemma EndsStay(pool: Pool, s: Frames, s': Frames, root: nat, page: Path, e: nat, q: Path, f: nat)
    requires PagePath(page) && Beyond(q, [], LOWER) && Ends(pool, s.mem, root, q, f)
    requires Extends(pool, s, s', root, page)
    requires (Updated(s.mem, s'.mem, root, page, e) && q != page) || SamePages(s.mem, s'.mem, root)
    ensures Ends(pool, s'.mem, root, q, f)
  {
    if |q| < LEVELS {
      assert SameOrNew(pool, s, s', root, page, q);
    } else {
      assert PagePath(q);
      assert Translate(s'.mem, root, q) == Translate(s.mem, root, q);
    }
  }

  lemma EndsSame(pool: Pool, mem: Memory, mem': Memory, root: nat, q: Path, f: nat)
    requires SameReach(mem, mem', root) && SamePages(mem, mem', root) && Beyond(q, [], LOWER)
    ensures Ends(pool, mem', root, q, f) <==> Ends(pool, mem, root, q, f)
  {
    if |q| == LEVELS {
      assert PagePath(q);
      assert Translate(mem', root, q) == Translate(mem, root, q);
    } else {
      assert TablePath(q);
    }
  }

  lemma LowerSame(pool: Pool, mem: Memory, mem': Memory, root: nat)
    requires SameReach(mem, mem', root) && SamePages(mem, mem', root)
    ensures Exclusive(pool, mem, root) ==> Exclusive(pool, mem', root)
    ensures forall f :: IsLower(pool, mem', root, f) <==> IsLower(pool, mem, root, f)
    ensures forall q, f :: Beyond(q, [], LOWER) ==> (Ends(pool, mem', root, q, f) <==> Ends(pool, mem, root, q, f))
  {
    hide SameReach, SamePages, Ends, Beyond;
    forall q, f | Beyond(q, [], LOWER)
      ensures Ends(pool, mem', root, q, f) <==> Ends(pool, mem, root, q, f)
    {
      EndsSame(pool, mem, mem', root, q, f);
    }
  }

  /** A frame just allocated may be mapped, and the address space is as before. */
  lemma AllocKeeps(pool: Pool, s: Frames, root: nat)
    requires Space(pool, s, root) && Owner(pool, s, root)
    ensures var (s', f) := Alloc(pool, s);
            f != 0 ==>
              && Space(pool, s', root) && Owner(pool, s', root)
              && SamePages(s.mem, s'.mem, root) && SameReach(s.mem, s'.mem, root)
              && PoolFrame(pool, f) && !Taken(pool, s, f) && Mappable(pool, s', root, f)
              && (forall g: nat :: PoolFrame(pool, g) ==> (Taken(pool, s', g) <==> Taken(pool, s, g) || g == f))
              && (forall q, g :: Beyond(q, [], LOWER) && Ends(pool, s.mem, root, q, g) ==> Ends(pool, s'.mem, root, q, g))
  {
    hide Alloc, Reach, Good, Exclusive, Out;
    AllocFresh(pool, s);
    var (s', f) := Alloc(pool, s);
    if f != 0 {
      TablesTaken(pool, s, root);
      SameWalk(s.mem, s'.mem, root);
      LowerSame(pool, s.mem, s'.mem, root);
      hide IsLower, Beyond, Ends, SameReach, SamePages, Tree, Held, Taken;
      AllocSpace(pool, s, s', root, f);
      forall g | IsLower(pool, s'.mem, root, g)
        ensures Taken(pool, s', g)
      {
        LowerAligned(pool, s.mem, root, g);
      }
    }
  }

  lemma TablesTaken(pool: Pool, s: Frames, root: nat)
    requires Space(pool, s, root)
    ensures forall f: nat :: IsReached(s.mem, root, f) ==> Taken(pool, s, f) && f % PAGE == 0 && f in s.mem
  {
    hide Reach, Taken;
  }

  lemma AllocSpace(pool: Pool, s: Frames, s': Frames, root: nat, f: nat)
    requires Space(pool, s, root) && Good(pool, s') && s'.mem == s.mem[f := Blank()]
    requires SameReach(s.mem, s'.mem, root)
    requires forall g: nat :: g % PAGE == 0 ==> (Taken(pool, s', g) <==> Taken(pool, s, g) || g == f)
    ensures Space(pool, s', root)
  {
    hide Reach, Taken, Good;
  }

  lemma FailedAlloc(pool: Pool, s: Frames, root: nat)
    requires Owner(pool, s, root)
    ensures Alloc(pool, s).1 == 0 ==> Alloc(pool, s).0 == s
  {
    AllocFresh(pool, s);
  }

  // ---- Whole runs on one address space ----

  datatype SpaceOp = MapNew(page: Path, flags: nat) | MapDevice(page: Path, e: nat) | Unmap(page: Path)

  predicate WellFormed(op: SpaceOp) {
    PagePath(op.page) && (op.MapNew? ==> op.flags < PAGE)
  }

  /** Lower-half pages; device frames lie outside the pool. */
  ghost predicate AllowedOp(pool: Pool, op: SpaceOp) {
    && WellFormed(op) && op.page[0] < LOWER
    && (op.MapDevice? ==> !InPool(pool, Addr(op.e)))
  }

  /** A fresh frame from the allocator mapped, a device frame mapped, or a page unmapped. */
  function SpaceStep(pool: Pool, s: Frames, root: nat, op: SpaceOp): Frames
    requires WellFormed(op)
  {
    match op
    case MapNew(page, flags) =>
      var (s', f) := Alloc(pool, s);
      if f == 0 then s' else MapPage(pool, s', root, page, Entry(f, flags)).0
    case MapDevice(page, e) => MapPage(pool, s, root, page, e).0
    case Unmap(page) => UnmapPage(s, root, page).0
  }

  function SpaceRun(pool: Pool, s: Frames, root: nat, ops: seq<SpaceOp>): Frames
    requires forall op :: op in ops ==> WellFormed(op)
    decreases |ops|
  {
    if ops == [] then s else SpaceRun(pool, SpaceStep(pool, s, root, ops[0]), root, ops[1..])
  }

  /** A frame just allocated is an address space of its own, with nothing mapped. */
  lemma FreshSpace(pool: Pool, s: Frames)
    requires Good(pool, s) && Alloc(pool, s).1 != 0
    ensures var (s', root) := Alloc(pool, s);
            && Space(pool, s', root) && Owner(pool, s', root)
            && forall q :: q != [] && |q| <= LEVELS ==> Reach(s'.mem, root, q) == None
  {
    AllocFresh(pool, s);
    var (s', root) := Alloc(pool, s);
    hide Alloc, Good, Out;
    forall q | q != [] && |q| <= LEVELS
      ensures Reach(s'.mem, root, q) == None
    {
      BlankReach(s'.mem, root, q);
    }
  }

  lemma {:induction false} BlankReach(mem: Memory, root: nat, q: Path)
    requires root in mem && mem[root] == Blank() && q != []
    ensures Reach(mem, root, q) == None
    decreases |q|
  {
    if |q| == 1 {
      assert q == [] + [q[0]];
      ReachStep(mem, root, [], q[0]);
      assert Word(mem, root, q[0]) == 0;
    } else {
      BlankReach(mem, root, q[..|q| - 1]);
    }
  }

  lemma UnmapKeepsOwner(pool: Pool, s: Frames, root: nat, page: Path)
    requires Space(pool, s, root) && Owner(pool, s, root) && PagePath(page)
    ensures var s' := UnmapPage(s, root, page).0;
            Space(pool, s', root) && Owner(pool, s', root)
  {
    hide UnmapPage, Reach, Tree, Held;
    UnmapRefines(pool, s, root, page);
    var s' := UnmapPage(s, root, page).0;
    forall q, f | Beyond(q, [], LOWER) && Ends(pool, s'.mem, root, q, f)
      ensures Ends(pool, s.mem, root, q, f)
    {
      EndsAfterUnmap(pool, s, s', root, page, q, f);
    }
    hide Beyond, Ends, Good, Updated;
    assert forall f :: Taken(pool, s', f) <==> Taken(pool, s, f);
  }

  lemma EndsAfterUnmap(pool: Pool, s: Frames, s': Frames, root: nat, page: Path, q: Path, f: nat)
    requires PagePath(page) && Beyond(q, [], LOWER) && Ends(pool, s'.mem, root, q, f)
    requires Updated(s.mem, s'.mem, root, page, 0) && SameReach(s.mem, s'.mem, root)
    ensures Ends(pool, s.mem, root, q, f)
  {
    if |q| < LEVELS {
      assert TablePath(q);
    } else {
      assert PagePath(q);
      assert Translate(s'.mem, root, q).Some?;
    }
  }

  /** After any run the space is still exclusively owned, so tearing it down releases each of its frames
      exactly once and no frame of anyone else's. */
  lemma {:induction false} RunKeepsOwner(pool: Pool, s: Frames, root: nat, ops: seq<SpaceOp>)
    requires Space(pool, s, root) && Owner(pool, s, root)
    requires forall op :: op in ops ==> WellFormed(op) && AllowedOp(pool, op)
    ensures var s' := SpaceRun(pool, s, root, ops);
            && Space(pool, s', root) && Owner(pool, s', root)
            && Good(pool, Destroy(pool, s', root))
            && forall f :: f in Out(pool, Destroy(pool, s', root)) <==> f in Out(pool, s') && !Returned(pool, s', root, f)
    decreases |ops|
  {
    hide Space, Owner, Alloc, MapPage, UnmapPage, Destroy, Out, Entry, IsLower, Good;
    if ops == [] {
      DestroyConserves(pool, s, root);
    } else {
      StepKeepsOwner(pool, s, root, ops[0]);
      RunKeepsOwner(pool, SpaceStep(pool, s, root, ops[0]), root, ops[1..]);
    }
  }

  lemma StepKeepsOwner(pool: Pool, s: Frames, root: nat, op: SpaceOp)
    requires Space(pool, s, root) && Owner(pool, s, root) && AllowedOp(pool, op)
    ensures Space(pool, SpaceStep(pool, s, root, op), root) && Owner(pool, SpaceStep(pool, s, root, op), root)
  {
    hide Space, Owner, Alloc, MapPage, UnmapPage, IsLower, Good, Taken;
    match op {
      case MapNew(page, flags) =>
        AllocKeeps(pool, s, root);
        FailedAlloc(pool, s, root);
        var (s1, f) := Alloc(pool, s);
        if f != 0 {
          assert Addr(Entry(f, flags)) == f;
          MapKeepsOwner(pool, s1, root, page, Entry(f, flags));
        }
      case MapDevice(page, e) => MapKeepsOwner(pool, s, root, page, e);
      case Unmap(page) => UnmapKeepsOwner(pool, s, root, page);
    }
  }
}
