/** The paging half of mem.c as it runs: frames, page tables and the intrusive free list in memory. */
module Mmu {
  import opened Options
  import opened PhysFrames
  import opened PageTables
  import opened PageTeardown
  import opened PageSpaces
  import opened PageStacks
  import opened PageShares

  class Paging {
    var mem: Memory
    var freePhysList: nat
    var nextFreePage: nat
    /** The physical address of the root table in use, 0 before paging is set up. */
    var pml4: nat
    const pool: Pool
    /** The free list from its head on. */
    ghost var free: seq<nat>

    ghost function State(): Frames
      reads this
    {
      Frames(mem, free, nextFreePage)
    }

    ghost predicate Valid()
      reads this
    {
      Good(pool, State()) && Linked(mem, freePhysList, free)
    }

    /** All that freeing needs: the head is the last frame freed. */
    ghost predicate Headed()
      reads this
    {
      freePhysList == HeadOf(free)
    }

    /** An empty pool over the given memory, as init_paging leaves it before the first allocation. */
    constructor (mem: Memory, pool: Pool)
      requires GoodPool(pool) && Backed(pool, mem)
      ensures Valid() && this.pool == pool && State() == Frames(mem, [], pool.start) && pml4 == 0
    {
      this.mem := mem;
      this.pool := pool;
      freePhysList, nextFreePage, pml4 := 0, pool.start, 0;
      free := [];
    }

    /** memset_page over a frame, word by word. */
    method ZeroPage(f: nat)
      requires f in mem && |mem[f]| == SLOTS
      modifies `mem
      ensures mem == old(mem)[f := Blank()]
    {
      var i := 0;
      while i < SLOTS
        invariant 0 <= i <= SLOTS && f in mem && |mem[f]| == SLOTS
        invariant mem == old(mem)[f := mem[f]]
        invariant forall k :: 0 <= k < i ==> mem[f][k] == 0
      {
        var table: seq<nat> := mem[f][i := 0];
        mem := mem[f := table];
        i := i + 1;
      }
      assert mem[f] == Blank();
    }

    method AllocPhysicalPage() returns (phys: nat)
      requires Valid()
      modifies `mem, `freePhysList, `nextFreePage, `free
      ensures Valid() && (State(), phys) == Alloc(pool, old(State()))
    {
      AllocLinked(pool, State(), freePhysList);
      AllocFresh(pool, State());
      LinkedHead(mem, freePhysList, free);
      if freePhysList != 0 {
        phys := freePhysList;
        assert phys in free;
        freePhysList := mem[phys][0];
        ZeroPage(phys);
        free := free[1..];
        return;
      }
      if nextFreePage == 0 || nextFreePage >= pool.end {
        return 0;
      }
      phys := nextFreePage;
      nextFreePage := nextFreePage + PAGE;
      ZeroPage(phys);
    }

    /** free_physical_page. The pool stays in order exactly when the frame is not the pool's or is in use:
        the range test does not see a frame freed twice. */
    method FreePhysicalPage(phys: nat)
      requires Headed() && phys % PAGE == 0
      modifies `mem, `freePhysList, `free
      ensures Headed() && State() == Release(pool, old(State()), phys)
      ensures old(Valid()) ==> (Valid() <==> !InPool(pool, phys) || Taken(pool, old(State()), phys))
    {
      ghost var s := State();
      if Valid() {
        ReleaseSound(pool, s, phys);
        if InPool(pool, phys) && Taken(pool, s, phys) { ReleaseLinked(pool, s, freePhysList, phys); }
      }
      hide Good, Linked, SetWord;
      if phys == 0 { return; }
      if phys < pool.start || phys >= pool.end { return; }
      Put(phys, 0, freePhysList);
      freePhysList := phys;
      free := [phys] + free;
    }

    /** A store to memory; addresses where there is none ignore it. */
    method Put(f: nat, i: nat, w: nat)
      modifies `mem
      ensures mem == SetWord(old(mem), f, i, w)
    {
      if f in mem && i < |mem[f]| {
        var table: seq<nat> := mem[f][i := w];
        mem := mem[f := table];
      }
    }

    /** A store to word `i` of a frame that is not on the free list. */
    method Store(f: nat, i: nat, w: nat)
      requires Valid() && f in mem && i < SLOTS && f !in free
      modifies `mem
      ensures Valid() && mem == SetWord(old(mem), f, i, w)
    {
      GoodAfterHook(pool, State(), Frames(SetWord(mem, f, i, w), free, nextFreePage), f, i, w);
      LinkedElsewhere(mem, SetWord(mem, f, i, w), freePhysList, free);
      Put(f, i, w);
    }

    method GetOrCreateTable(t: nat, i: nat) returns (r: Option<nat>)
      requires Valid() && t in mem && i < SLOTS && t % PAGE == 0 && Taken(pool, State(), t)
      modifies `mem, `freePhysList, `nextFreePage, `free
      ensures Valid() && (State(), r) == GetTable(pool, old(State()), t, i)
    {
      var e := mem[t][i];
      if e % 2 == 1 {
        return Some(e - e % PAGE);
      }
      AllocFresh(pool, State());
      var phys := AllocPhysicalPage();
      if phys == 0 { return None; }
      Store(t, i, phys + LINK_FLAGS);
      return Some(phys);
    }

    /** map_page on the tables of `pml4`. */
    method MapPage(vaddr: nat, paddr: nat, flags: nat) returns (code: int)
      requires Valid() && Space(pool, State(), pml4)
      modifies `mem, `freePhysList, `nextFreePage, `free
      ensures Valid() && Space(pool, State(), pml4)
      ensures (State(), code == 0) == PageTables.MapPage(pool, old(State()), pml4, PageOf(vaddr), Entry(paddr, flags))
      ensures code == 0 || code == -1
    {
      hide Good, Linked, Space, Down, Stuck, PageOf, Entry, GetTable, Reach, Missing, Spare, SamePages, Extends, Updated, SetWord, Taken, Headed;
      var page := PageOf(vaddr);
      ghost var s := State();
      MapRefines(pool, s, pml4, page, Entry(paddr, flags));
      DownStart(pool, s, pml4, page);
      DownTable(pool, s, s, pml4, page, 0);
      DownStep(pool, s, s, pml4, page, 0);
      var pdpt := GetOrCreateTable(pml4, page[0]);
      if pdpt == None { return -1; }
      ghost var s1 := State();
      DownTable(pool, s, s1, pml4, page, 1);
      DownStep(pool, s, s1, pml4, page, 1);
      var pd := GetOrCreateTable(pdpt.value, page[1]);
      if pd == None { return -1; }
      ghost var s2 := State();
      DownTable(pool, s, s2, pml4, page, 2);
      DownStep(pool, s, s2, pml4, page, 2);
      var pt := GetOrCreateTable(pd.value, page[2]);
      if pt == None { return -1; }
      DownTable(pool, s, State(), pml4, page, 3);
      Store(pt.value, page[3], Entry(paddr, flags));
      return 0;
    }

    /** unmap_page on the tables of `pml4`. */
    method UnmapPage(vaddr: nat) returns (code: int)
      requires Valid() && (pml4 != 0 ==> Space(pool, State(), pml4))
      modifies `mem
      ensures Valid() && (pml4 != 0 ==> Space(pool, State(), pml4))
      ensures pml4 == 0 ==> code == -1 && State() == old(State())
      ensures pml4 != 0 ==> (State(), code == 0) == PageTables.UnmapPage(old(State()), pml4, PageOf(vaddr))
      ensures code == 0 || code == -1
    {
      if pml4 == 0 { return -1; }
      hide Good, Linked, Space, PageOf, Reach, EntryAt, Translate, Present, Addr, SetWord, Walked;
      var page := PageOf(vaddr);
      UnmapSpace(pool, State(), pml4, page);
      WalkStart(pool, State(), pml4, page);
      WalkOn(pool, State(), pml4, page, 0, pml4);
      if !Present(mem[pml4][page[0]]) { return -1; }
      var pdpt := Addr(mem[pml4][page[0]]);
      WalkOn(pool, State(), pml4, page, 1, pdpt);
      if !Present(mem[pdpt][page[1]]) { return -1; }
      var pd := Addr(mem[pdpt][page[1]]);
      WalkOn(pool, State(), pml4, page, 2, pd);
      if !Present(mem[pd][page[2]]) { return -1; }
      var pt := Addr(mem[pd][page[2]]);
      WalkOn(pool, State(), pml4, page, 3, pt);
      if !Present(mem[pt][page[3]]) { return -1; }
      Store(pt, page[3], 0);
      return 0;
    }

    /** create_user_pml4 copying the root at `cur`, which CR3 names. */
    method CreateUserPml4(cur: nat) returns (phys: nat)
      requires Valid() && Space(pool, State(), cur)
      modifies `mem, `freePhysList, `nextFreePage, `free
      ensures Valid() && (State(), phys) == CreateUser(pool, old(State()), cur)
    {
      hide Good, Linked, Space, UserEntry;
      ghost var s := State();
      SpaceAlloc(pool, s, cur, []);
      RootReached(s.mem, cur);
      phys := AllocPhysicalPage();
      if phys == 0 { return; }
      hide Alloc;
      ghost var m := mem;
      NotOnList(pool, s, cur);
      var i := 0;
      while i < SLOTS
        invariant 0 <= i <= SLOTS && Valid() && phys in mem && |mem[phys]| == SLOTS
        invariant cur != phys && cur in mem && mem[cur] == m[cur] && |mem[cur]| == SLOTS && phys !in free
        invariant free == Alloc(pool, s).0.free && nextFreePage == Alloc(pool, s).0.next
        invariant mem == m[phys := mem[phys]]
        invariant forall k :: 0 <= k < i ==> mem[phys][k] == mem[cur][k]
      {
        Store(phys, i, mem[cur][i]);
        i := i + 1;
      }
      i := 0;
      while i < LOWER
        invariant 0 <= i <= LOWER && Valid() && phys in mem && |mem[phys]| == SLOTS
        invariant cur != phys && cur in mem && mem[cur] == m[cur] && |mem[cur]| == SLOTS && phys !in free
        invariant free == Alloc(pool, s).0.free && nextFreePage == Alloc(pool, s).0.next
        invariant mem == m[phys := mem[phys]]
        invariant forall k :: 0 <= k < SLOTS ==> mem[phys][k] == if k < i then UserEntry(mem[cur][k]) else mem[cur][k]
      {
        if Present(mem[phys][i]) {
          Store(phys, i, UserEntry(mem[phys][i]));
        } else {
          AbsentEntry(mem[phys][i]);
        }
        i := i + 1;
      }
      assert mem[phys] == UserRoot(m, cur);
    }

    /** allocate_user_stack: the root in use is swapped for the duration. */
    method AllocateUserStack(pml4Phys: nat, userVaddr: nat, size: nat) returns (firstPhys: nat)
      requires Valid() && Space(pool, State(), pml4Phys) && userVaddr < WIDTH && size < WIDTH
      modifies this
      ensures Valid() && pml4 == old(pml4)
      ensures (State(), firstPhys) == PageStacks.AllocateUserStack(pool, old(State()), pml4Phys, userVaddr, size)
    {
      if size == 0 { return 0; }
      hide Good, Linked, Space, StackLoop, StackStart;
      var oldPml4 := pml4;
      pml4 := pml4Phys;
      firstPhys := MapStack(StackStart(userVaddr, size), userVaddr);
      pml4 := oldPml4;
    }

    /** The loop of allocate_user_stack. */
    method MapStack(base: nat, end: nat) returns (firstPhys: nat)
      requires Valid() && Space(pool, State(), pml4)
      modifies `mem, `freePhysList, `nextFreePage, `free
      ensures Valid() && (State(), firstPhys) == StackLoop(pool, old(State()), pml4, base, end, 0)
    {
      hide Good, Linked, Space, Alloc, PageTables.MapPage, PageOf, Entry;
      var v := base;
      firstPhys := 0;
      while v < end
        invariant Valid() && Space(pool, State(), pml4)
        invariant StackLoop(pool, State(), pml4, v, end, firstPhys) == StackLoop(pool, old(State()), pml4, base, end, 0)
      {
        AllocKeepsSpace(pool, State(), pml4);
        var phys := AllocPhysicalPage();
        if phys == 0 { break; }
        if firstPhys == 0 { firstPhys := phys; }
        var code := MapPage(v, phys, STACK_FLAGS);
        if code != 0 { break; }
        v := v + PAGE;
      }
    }

    /** One loop of destroy_user_mappings, over the first `n` entries of a table; the four nested loops
        are this one at levels 4 to 1. */
    method ClearTable(t: nat, level: nat, n: nat)
      requires Headed() && 1 <= level <= LEVELS && n <= SLOTS
      modifies `mem, `freePhysList, `free
      ensures Headed() && State() == ClearEntries(pool, old(State()), t, level, n)
      decreases level
    {
      ghost var s := State();
      var i := 0;
      assert ClearEntries(pool, s, t, level, 0) == s;
      hide Headed, Valid, Good, Taken, InPool, ClearEntries, Release, SetWord, Word, Addr, Present;
      while i < n
        invariant 0 <= i <= n && Headed() && State() == ClearEntries(pool, s, t, level, i)
      {
        ClearNext(pool, s, t, level, i + 1);
        var e := Word(mem, t, i);
        if Present(e) {
          if level == 1 {
            ClearWord(t, i);
            FreePhysicalPage(Addr(e));
          } else {
            ClearTable(Addr(e), level - 1, SLOTS);
            FreePhysicalPage(Addr(e));
            ClearWord(t, i);
          }
        }
        i := i + 1;
      }
    }

    /** Entry `i` of table `t` is cleared. */
    method ClearWord(t: nat, i: nat)
      requires Headed()
      modifies `mem
      ensures Headed() && State() == Frames(SetWord(old(mem), t, i, 0), old(free), old(nextFreePage))
    {
      Put(t, i, 0);
    }

    /** destroy_user_mappings, on any tables; the pool stays in order when the lower half is exclusively
        owned. */
    method DestroyUserMappings(pml4Phys: nat)
      requires Headed() && pml4Phys % PAGE == 0
      modifies `mem, `freePhysList, `free
      ensures Headed() && State() == Destroy(pool, old(State()), pml4Phys)
      ensures old(Valid() && Owner(pool, State(), pml4Phys)) ==> Valid()
    {
      ghost var s := State();
      if Valid() && Owner(pool, s, pml4Phys) { DestroyConserves(pool, s, pml4Phys); }
      hide Good, Linked, Owner, Taken, ClearEntries, Release, Word, Out, Pushed, Owned;
      if pml4Phys == 0 { return; }
      ClearTable(pml4Phys, LEVELS, LOWER);
      FreePhysicalPage(pml4Phys);
    }
  }

  lemma NotOnList(pool: Pool, s: Frames, cur: nat)
    requires Space(pool, s, cur)
    ensures IsTable(s.mem, cur) && Taken(pool, s, cur)
  {
    RootReached(s.mem, cur);
    assert TablePath([]);
  }

  lemma AbsentEntry(e: nat)
    requires !Present(e)
    ensures UserEntry(e) == e
  {
  }

  lemma AllocKeepsSpace(pool: Pool, s: Frames, root: nat)
    requires Space(pool, s, root)
    ensures Space(pool, Alloc(pool, s).0, root)
  {
    hide Alloc, Reach, Good, Out;
    AllocFresh(pool, s);
    var (s', f) := Alloc(pool, s);
    if f != 0 {
      TablesTaken(pool, s, root);
      SameWalk(s.mem, s'.mem, root);
      AllocSpace(pool, s, s', root, f);
    }
  }

  /** The table at level `k` of a walk in progress can be written. */
  lemma DownTable(pool: Pool, s: Frames, s': Frames, root: nat, page: Path, k: nat)
    requires PagePath(page) && k <= 3 && Down(pool, s, s', root, page, k)
    ensures var t := Reach(s'.mem, root, page[..k]).value;
            IsTable(s'.mem, t) && Taken(pool, s', t)
  {
    assert TablePath(page[..k]);
  }

  lemma UnmapSpace(pool: Pool, s: Frames, root: nat, page: Path)
    requires Space(pool, s, root) && PagePath(page)
    ensures Space(pool, PageTables.UnmapPage(s, root, page).0, root)
  {
    UnmapRefines(pool, s, root, page);
  }

  /** The walk along `page` is at table `t` on level `k`. */
  ghost predicate Walked(pool: Pool, s: Frames, root: nat, page: Path, k: nat, t: nat) {
    Space(pool, s, root) && PagePath(page) && k <= 3 && Reach(s.mem, root, page[..k]) == Some(t)
  }

  lemma WalkStart(pool: Pool, s: Frames, root: nat, page: Path)
    requires Space(pool, s, root) && PagePath(page)
    ensures Walked(pool, s, root, page, 0, root)
  {
  }

  /** What the walk finds at table `t`. */
  lemma WalkOn(pool: Pool, s: Frames, root: nat, page: Path, k: nat, t: nat)
    requires Walked(pool, s, root, page, k, t)
    ensures t in s.mem && k < |page| && page[k] < |s.mem[t]| == SLOTS && t !in s.free
    ensures var e := s.mem[t][page[k]];
            && (!Present(e) ==> PageTables.UnmapPage(s, root, page) == (s, false))
            && (Present(e) && k < 3 ==> Walked(pool, s, root, page, k + 1, Addr(e)))
            && (Present(e) && k == 3 ==>
                  PageTables.UnmapPage(s, root, page) == (Frames(SetWord(s.mem, t, page[3], 0), s.free, s.next), true))
  {
    hide SetWord;
    assert TablePath(page[..k]) && IsTable(s.mem, t);
    ReachStep(s.mem, root, page[..k], page[k]);
    assert page[..k] + [page[k]] == page[..k + 1];
    hide Space;
    if Translate(s.mem, root, page).Some? { TranslateReaches(s.mem, root, page, k + 1); }
    assert page[..4] == page;
  }

  lemma TranslateReaches(mem: Memory, root: nat, page: Path, k: nat)
    requires PagePath(page) && k <= 4 && Translate(mem, root, page).Some?
    ensures Reach(mem, root, page[..k]).Some?
  {
    ReachAlong(mem, root, page, k);
  }
}
