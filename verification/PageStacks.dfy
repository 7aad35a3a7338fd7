/** User stacks: what allocate_user_stack maps, and exactly when it loses a frame. */
module PageStacks {
  import opened Options
  import opened PhysFrames
  import opened PageTables
  import opened PageTeardown
  import opened PageSpaces

  const STACK_FLAGS: nat := 7
  const WIDTH: nat := 0x1_0000_0000_0000_0000
  /** The lower half ends here. */
  const USER_END: nat := 0x8000_0000_0000

  /** The mapping loop from address `v` up to `end`; `first` is the frame of the first page so far. */
  function StackLoop(pool: Pool, s: Frames, root: nat, v: nat, end: nat, first: nat): (Frames, nat)
    decreases end - v
  {
    if v >= end then (s, first)
    else
      var (s1, f) := Alloc(pool, s);
      if f == 0 then (s1, first)
      else
        var first' := if first == 0 then f else first;
        var (s2, ok) := MapPage(pool, s1, root, PageOf(v), Entry(f, STACK_FLAGS));
        if !ok then (s2, first') else StackLoop(pool, s2, root, v + PAGE, end, first')
  }

  /** The lowest address of the stack, in 64-bit arithmetic: rounding the size up may wrap around, and so
      may the subtraction. */
  function StackStart(top: nat, size: nat): nat
    requires top < WIDTH && size < WIDTH
  {
    (top - (size + PAGE - 1) % WIDTH / PAGE * PAGE) % WIDTH
  }

  /** allocate_user_stack. */
  function AllocateUserStack(pool: Pool, s: Frames, root: nat, top: nat, size: nat): (Frames, nat)
    requires top < WIDTH && size < WIDTH
  {
    if size == 0 then (s, 0) else StackLoop(pool, s, root, StackStart(top, size), top, 0)
  }

  function StackPage(v: nat, k: nat): (p: Path)
    ensures PagePath(p)
  {
    PageOf(v + k * PAGE)
  }

  predicate InStack(v: nat, m: nat, q: Path) {
    exists k: nat :: k < m && q == StackPage(v, k)
  }

  /** Page `k` of the stack has a frame of its own that was not in use before. */
  ghost predicate StackMapped(pool: Pool, s: Frames, s': Frames, root: nat, v: nat, k: nat) {
    var t := Translate(s'.mem, root, StackPage(v, k));
    t.Some? && OpenToUser(t.value) && PoolFrame(pool, Addr(t.value)) && !Taken(pool, s, Addr(t.value))
  }

  /** The first `m` pages are mapped, other pages translate as before, what the lower half reached
      elsewhere it still reaches, and every frame taken is owned by the lower half but for `lost`. */
  ghost predicate StackDone(pool: Pool, s: Frames, s': Frames, root: nat, v: nat, m: nat, lost: nat) {
    && Space(pool, s', root) && Owner(pool, s', root)
    && (forall k: nat :: k < m ==> StackMapped(pool, s, s', root, v, k))
    && (forall q :: PagePath(q) && !InStack(v, m, q) ==> Translate(s'.mem, root, q) == Translate(s.mem, root, q))
    && (forall q, f :: Beyond(q, [], LOWER) && Ends(pool, s.mem, root, q, f) && !InStack(v, m, q) ==> Ends(pool, s'.mem, root, q, f))
    && (forall f: nat :: PoolFrame(pool, f) && Taken(pool, s', f) && !Taken(pool, s, f) ==> f == lost || IsLower(pool, s'.mem, root, f))
    && (forall f: nat :: PoolFrame(pool, f) && Taken(pool, s, f) ==> Taken(pool, s', f))
  }

  /** The lower half of the root covers exactly the addresses below 2^47. */
  lemma LowerPage(v: nat)
    requires v < 0x1_0000_0000_0000
    ensures PageOf(v)[0] < LOWER <==> v < 0x8000_0000_0000
  {
    assert v / 0x80_0000_0000 < 512;
    assert v < 0x8000_0000_0000 <==> v / 0x80_0000_0000 < 256;
  }

  /** The lowest page of the stack is backed by frame `f`. */
  predicate FirstIs(s: Frames, root: nat, v: nat, f: nat) {
    var t := Translate(s.mem, root, StackPage(v, 0));
    t.Some? && Addr(t.value) == f
  }

  /** Frame `f` was free, is in use now, and the lower half does not lead to it. */
  ghost predicate Leaked(pool: Pool, s: Frames, s': Frames, root: nat, f: nat) {
    PoolFrame(pool, f) && !Taken(pool, s, f) && Taken(pool, s', f) && !IsLower(pool, s'.mem, root, f)
  }

  /** The tables on the way to `page` were added, and no others. */
  ghost predicate GrownBy(mem: Memory, mem': Memory, root: nat, page: Path) {
    forall q :: TablePath(q) ==> (Reach(mem', root, q).Some? <==> Reach(mem, root, q).Some? || q <= page)
  }

  lemma GrownByMap(pool: Pool, s: Frames, s': Frames, root: nat, page: Path, e: nat)
    requires PagePath(page) && Present(e) && Extends(pool, s, s', root, page) && Updated(s.mem, s'.mem, root, page, e)
    ensures GrownBy(s.mem, s'.mem, root, page)
  {
    var t := PageTableOf(s'.mem, root, page);
    hide Reach, Taken;
    ReachPrefix(s'.mem, root, page, 2);
    ReachPrefix(s'.mem, root, page, 1);
    RootReached(s'.mem, root);
    forall q | TablePath(q)
      ensures Reach(s'.mem, root, q).Some? <==> Reach(s.mem, root, q).Some? || q <= page
    {
      assert SameOrNew(pool, s, s', root, page, q);
      if q <= page {
        assert q == page[..|q|];
        assert |q| == 0 ==> q == [];
      }
    }
  }

  /** One turn of the loop whose map_page fails: the frame in hand is lost. */
  lemma StackFails(pool: Pool, s: Frames, s1: Frames, s2: Frames, root: nat, page: Path, f: nat)
    requires Owner(pool, s1, root) && PagePath(page) && Tree(s2.mem, root)
    requires Extends(pool, s1, s2, root, page) && SamePages(s1.mem, s2.mem, root)
    requires PoolFrame(pool, f) && !Taken(pool, s, f) && Taken(pool, s1, f) && Mappable(pool, s1, root, f)
    ensures Leaked(pool, s, s2, root, f)
  {
    hide IsLower, Taken, Reach, SamePages, Owner, Tree;
    MapKeepsExclusive(pool, s1, s2, root, page, 0);
  }

  /** One turn of the loop that maps its page. */
  lemma StackStep(pool: Pool, s: Frames, root: nat, v: nat)
    requires Space(pool, s, root) && Owner(pool, s, root) && v < USER_END
    ensures var (s1, f) := Alloc(pool, s);
            f != 0 ==>
              var (s2, ok) := MapPage(pool, s1, root, PageOf(v), Entry(f, STACK_FLAGS));
              && StackDone(pool, s, s2, root, v, if ok then 1 else 0, if ok then 0 else f)
              && (ok ==> FirstIs(s2, root, v, f))
  {
    hide Alloc, MapPage, Exclusive, Good, Reach, Owner, Space, Held, Tree, Missing, Spare;
    var (s1, f) := Alloc(pool, s);
    if f != 0 {
      LowerPage(v);
      AllocKeeps(pool, s, root);
      FramePage(f);
      MapKeepsOwner(pool, s1, root, PageOf(v), Entry(f, STACK_FLAGS));
      MapRefines(pool, s1, root, PageOf(v), Entry(f, STACK_FLAGS));
      var (s2, ok) := MapPage(pool, s1, root, PageOf(v), Entry(f, STACK_FLAGS));
      hide Entry, PageOf, Addr, Taken, IsLower, PoolFrame, OpenToUser, Mappable, Extends, SameReach, Beyond, Ends;
      OnePage(v);
      if ok { MappedIsLower(pool, s2, root, PageOf(v), Entry(f, STACK_FLAGS)); }
    }
  }

  lemma OnePage(v: nat)
    ensures StackPage(v, 0) == PageOf(v)
    ensures forall q :: InStack(v, 1, q) <==> q == PageOf(v)
    ensures forall q :: !InStack(v, 0, q)
  {
    hide PageOf;
    assert StackPage(v, 0) == PageOf(v);
  }

  /** What the turn takes from the allocator: a frame for the page and one for each missing table, or,
      when those are not there, a frame for nothing. */
  lemma StackCost(pool: Pool, s: Frames, root: nat, v: nat)
    requires Space(pool, s, root) && Owner(pool, s, root)
    ensures s.next <= pool.end
    ensures var (s1, f) := Alloc(pool, s);
            && (f == 0 <==> Spare(pool, s) == 0)
            && (f != 0 ==>
                  var (s2, ok) := MapPage(pool, s1, root, PageOf(v), Entry(f, STACK_FLAGS));
                  var cost := 1 + Missing(s.mem, root, PageOf(v));
                  && (ok <==> cost <= Spare(pool, s))
                  && (ok ==> s2.next <= pool.end && Spare(pool, s2) == Spare(pool, s) - cost)
                  && (ok ==> GrownBy(s.mem, s2.mem, root, PageOf(v)))
                  && (!ok ==> Leaked(pool, s, s2, root, f)))
  {
    hide Alloc, MapPage, Exclusive, Good, Reach, Owner, Held, Tree, Missing, Spare, Extends, Updated, SamePages, PageOf, Entry;
    SpaceTree(pool, s, root);
    SpareFits(pool, s);
    AllocSpare(pool, s);
    var (s1, f) := Alloc(pool, s);
    if f != 0 {
      AllocKeeps(pool, s, root);
      FramePage(f);
      hide Space, Taken, PoolFrame, Mappable, SameReach;
      var page, e := PageOf(v), Entry(f, STACK_FLAGS);
      SameMissing(s.mem, s1.mem, root, page);
      MapRefines(pool, s1, root, page, e);
      var (s2, ok) := MapPage(pool, s1, root, page, e);
      if ok {
        GrownByMap(pool, s1, s2, root, page, e);
        GrownFrom(s.mem, s1.mem, s2.mem, root, page);
      } else {
        SpaceTree(pool, s2, root);
        AllocTakes(pool, s, f);
        StackFails(pool, s, s1, s2, root, page, f);
      }
    }
  }

  lemma SpareFits(pool: Pool, s: Frames)
    requires Good(pool, s)
    ensures s.next <= pool.end
  {
  }

  lemma AllocTakes(pool: Pool, s: Frames, f: nat)
    requires Good(pool, s) && f == Alloc(pool, s).1 != 0
    ensures PoolFrame(pool, f) && !Taken(pool, s, f) && Taken(pool, Alloc(pool, s).0, f)
  {
    AllocFresh(pool, s);
  }

  lemma SameMissing(mem: Memory, mem': Memory, root: nat, page: Path)
    requires SameReach(mem, mem', root) && PagePath(page)
    ensures Missing(mem', root, page) == Missing(mem, root, page)
  {
    hide Reach;
    assert forall l | 1 <= l <= 3 :: TablePath(page[..l]);
  }

  lemma GrownFrom(mem: Memory, mem1: Memory, mem2: Memory, root: nat, page: Path)
    requires SameReach(mem, mem1, root) && GrownBy(mem1, mem2, root, page)
    ensures GrownBy(mem, mem2, root, page)
  {
    hide Reach;
  }

  lemma MappedIsLower(pool: Pool, s: Frames, root: nat, page: Path, e: nat)
    requires PagePath(page) && page[0] < LOWER && Translate(s.mem, root, page) == Some(e) && InPool(pool, Addr(e))
    ensures IsLower(pool, s.mem, root, Addr(e))
  {
    assert Beyond(page, [], LOWER) && Ends(pool, s.mem, root, page, Addr(e));
  }

  lemma FramePage(f: nat)
    requires f % PAGE == 0
    ensures Addr(Entry(f, STACK_FLAGS)) == f && OpenToUser(Entry(f, STACK_FLAGS)) && Present(Entry(f, STACK_FLAGS))
  {
    OrEntry(f, STACK_FLAGS);
    FlagBits(f / PAGE);
  }

  /** The pages of a stack are the first one and those above it, and they are different pages. */
  lemma StackSplit(v: nat, w: nat, m: nat)
    requires w == v + PAGE && v + (m + 1) * PAGE < USER_END + PAGE
    ensures forall q :: InStack(v, m + 1, q) <==> InStack(v, 1, q) || InStack(w, m, q)
    ensures forall k: nat :: 1 <= k <= m ==> StackPage(v, k) == StackPage(w, k - 1)
    ensures !InStack(w, m, StackPage(v, 0))
  {
    hide PageOf;
    forall k: nat | 1 <= k <= m
      ensures StackPage(v, k) == StackPage(w, k - 1) && StackPage(v, 0) != StackPage(v, k)
    {
      assert w + (k - 1) * PAGE == v + k * PAGE;
      SamePage(v, v + k * PAGE);
    }
    forall q
      ensures InStack(v, m + 1, q) <==> InStack(v, 1, q) || InStack(w, m, q)
      ensures InStack(w, m, q) ==> q != StackPage(v, 0)
    {
      if k: nat :| k < m + 1 && q == StackPage(v, k) {
        assert k > 0 ==> q == StackPage(w, k - 1);
      }
      if k: nat :| k < m && q == StackPage(w, k) {
        assert q == StackPage(v, k + 1);
      }
    }
  }

  /** A frame the first page or its tables took is still owned when the rest of the stack is mapped. */
  lemma FirstPageStays(pool: Pool, s: Frames, s2: Frames, s': Frames, root: nat, v: nat, m: nat, lost: nat, f: nat)
    requires Owner(pool, s, root) && !Taken(pool, s, f) && IsLower(pool, s2.mem, root, f)
    requires StackDone(pool, s, s2, root, v, 1, 0) && StackDone(pool, s2, s', root, v + PAGE, m, lost)
    requires !InStack(v + PAGE, m, StackPage(v, 0))
    ensures IsLower(pool, s'.mem, root, f)
  {
    hide Space, Owner, Taken, StackMapped;
    var q :| Beyond(q, [], LOWER) && Ends(pool, s2.mem, root, q, f);
    if InStack(v + PAGE, m, q) {
      assert PagePath(q) && !InStack(v, 1, q);
      assert Translate(s2.mem, root, q) == Translate(s.mem, root, q);
      assert Ends(pool, s.mem, root, q, f);
      LowerTaken(pool, s, root, q, f);
      assert false;
    }
  }

  lemma LowerTaken(pool: Pool, s: Frames, root: nat, q: Path, f: nat)
    requires Owner(pool, s, root) && Beyond(q, [], LOWER) && Ends(pool, s.mem, root, q, f)
    ensures Taken(pool, s, f)
  {
    assert IsLower(pool, s.mem, root, f);
  }

  /** The rest of the stack on top of its first page. */
  lemma StackOn(pool: Pool, s: Frames, s2: Frames, s': Frames, root: nat, v: nat, m: nat, lost: nat)
    requires Owner(pool, s, root)
    requires StackDone(pool, s, s2, root, v, 1, 0) && StackDone(pool, s2, s', root, v + PAGE, m, lost)
    requires v + (m + 1) * PAGE < USER_END + PAGE
    ensures StackDone(pool, s, s', root, v, m + 1, lost)
  {
    hide Reach, Space, Owner, Taken, PageOf, Ends, Beyond, InStack;
    StackSplit(v, v + PAGE, m);
    forall k: nat | k < m + 1
      ensures StackMapped(pool, s, s', root, v, k)
    {
      if k == 0 {
        assert StackMapped(pool, s, s2, root, v, 0);
      } else {
        assert StackMapped(pool, s2, s', root, v + PAGE, k - 1);
      }
    }
    forall f: nat | PoolFrame(pool, f) && Taken(pool, s', f) && !Taken(pool, s, f)
      ensures f == lost || IsLower(pool, s'.mem, root, f)
    {
      if Taken(pool, s2, f) {
        PoolAboveZero(pool, s, root, f);
        FirstPageStays(pool, s, s2, s', root, v, m, lost, f);
      }
    }
  }

  lemma PoolAboveZero(pool: Pool, s: Frames, root: nat, f: nat)
    requires Owner(pool, s, root) && InPool(pool, f)
    ensures f != 0
  {
  }

  // ---- What a stack costs ----

  /** Page `j` is the first of the stack to need its table of level `l`, which is not there yet. */
  ghost predicate NewTable(mem: Memory, root: nat, v: nat, j: nat, l: nat)
    requires 1 <= l <= 3
  {
    && Reach(mem, root, StackPage(v, j)[..l]) == None
    && forall i: nat :: i < j ==> StackPage(v, i)[..l] != StackPage(v, j)[..l]
  }

  function Bit(b: bool): nat {
    if b then 1 else 0
  }

  /** How many tables page `j` of the stack needs beyond those in `mem` and those of the pages below it. */
  ghost function NewTables(mem: Memory, root: nat, v: nat, j: nat): nat {
    Bit(NewTable(mem, root, v, j, 1)) + Bit(NewTable(mem, root, v, j, 2)) + Bit(NewTable(mem, root, v, j, 3))
  }

  /** How many frames the first `k` pages take. */
  ghost function Used(mem: Memory, root: nat, v: nat, k: nat): nat {
    if k == 0 then 0 else Used(mem, root, v, k - 1) + 1 + NewTables(mem, root, v, k - 1)
  }

  /** At some page there is a frame left for the page, but not one for each table it needs. */
  ghost predicate StackLoses(pool: Pool, s: Frames, root: nat, v: nat, end: nat)
    requires s.next <= pool.end
  {
    exists k: nat :: k * PAGE < end - v && TooFew(pool, s, root, v, k)
  }

  ghost predicate TooFew(pool: Pool, s: Frames, root: nat, v: nat, k: nat)
    requires s.next <= pool.end
  {
    Used(s.mem, root, v, k) < Spare(pool, s) <= Used(s.mem, root, v, k) + NewTables(s.mem, root, v, k)
  }

  lemma FirstNewTables(mem: Memory, root: nat, v: nat)
    ensures NewTables(mem, root, v, 0) == Missing(mem, root, PageOf(v))
    ensures Used(mem, root, v, 1) == 1 + Missing(mem, root, PageOf(v))
  {
    var page := PageOf(v);
    assert StackPage(v, 0) == page;
    hide Reach, PageOf;
    if Reach(mem, root, page[..2]).Some? { ReachPrefix(mem, root, page, 1); }
    if Reach(mem, root, page[..3]).Some? { ReachPrefix(mem, root, page, 2); }
    assert Used(mem, root, v, 0) == 0;
  }

  /** Once the first page is mapped, the others need the tables they needed before. */
  lemma NewTablesShift(mem: Memory, mem': Memory, root: nat, v: nat, j: nat)
    requires GrownBy(mem, mem', root, PageOf(v))
    ensures NewTables(mem', root, v + PAGE, j) == NewTables(mem, root, v, j + 1)
  {
    NewTableShift(mem, mem', root, v, v + PAGE, j, 1);
    NewTableShift(mem, mem', root, v, v + PAGE, j, 2);
    NewTableShift(mem, mem', root, v, v + PAGE, j, 3);
  }

  lemma NewTableShift(mem: Memory, mem': Memory, root: nat, v: nat, w: nat, j: nat, l: nat)
    requires GrownBy(mem, mem', root, PageOf(v)) && 1 <= l <= 3 && w == v + PAGE
    ensures NewTable(mem', root, w, j, l) <==> NewTable(mem, root, v, j + 1, l)
  {
    StackShift(v, w);
    hide Reach, PageOf, StackPage;
    var page, q := StackPage(v, 0), StackPage(v, j + 1)[..l];
    assert TablePath(q);
    assert q <= page <==> q == page[..l];
    if NewTable(mem', root, w, j, l) {
      forall i: nat | i < j + 1
        ensures StackPage(v, i)[..l] != q
      {
        assert i > 0 ==> StackPage(v, i) == StackPage(w, i - 1);
      }
    }
    if NewTable(mem, root, v, j + 1, l) {
      forall i: nat {:trigger StackPage(w, i)} | i < j
        ensures StackPage(w, i)[..l] != q
      {
        assert StackPage(w, i) == StackPage(v, i + 1);
      }
    }
  }

  lemma StackShift(v: nat, w: nat)
    requires w == v + PAGE
    ensures StackPage(v, 0) == PageOf(v)
    ensures forall i: nat {:trigger StackPage(w, i)} :: StackPage(w, i) == StackPage(v, i + 1)
  {
    hide PageOf;
    forall i: nat {:trigger StackPage(w, i)}
      ensures StackPage(w, i) == StackPage(v, i + 1)
    {
      assert w + i * PAGE == v + (i + 1) * PAGE;
    }
  }

  lemma {:induction false} UsedShift(mem: Memory, mem': Memory, root: nat, v: nat, k: nat)
    requires GrownBy(mem, mem', root, PageOf(v))
    ensures Used(mem, root, v, k + 1) == 1 + Missing(mem, root, PageOf(v)) + Used(mem', root, v + PAGE, k)
    decreases k
  {
    hide GrownBy, NewTables, PageOf, Missing;
    FirstNewTables(mem, root, v);
    if k > 0 {
      UsedShift(mem, mem', root, v, k - 1);
      NewTablesShift(mem, mem', root, v, k - 1);
    }
  }

  lemma {:induction false} UsedGrows(mem: Memory, root: nat, v: nat, j: nat, k: nat)
    requires j <= k
    ensures Used(mem, root, v, j) <= Used(mem, root, v, k)
    decreases k
  {
    hide NewTables;
    if j < k { UsedGrows(mem, root, v, j, k - 1); }
  }

  /** The loop maps as many pages as there are frames for, and has a frame left over just when it loses it. */
  ghost predicate Counted(pool: Pool, s: Frames, root: nat, v: nat, end: nat, m: nat, lost: nat) {
    && s.next <= pool.end && m * PAGE <= end - v
    && Used(s.mem, root, v, m) <= Spare(pool, s)
    && (m * PAGE < end - v ==> Spare(pool, s) < Used(s.mem, root, v, m + 1))
    && (lost != 0 <==> m * PAGE < end - v && Used(s.mem, root, v, m) < Spare(pool, s))
  }

  lemma CountedLoses(pool: Pool, s: Frames, root: nat, v: nat, end: nat, m: nat, lost: nat)
    requires Counted(pool, s, root, v, end, m, lost) && v <= end
    ensures lost != 0 <==> StackLoses(pool, s, root, v, end)
  {
    hide NewTables, Spare;
    assert Used(s.mem, root, v, m + 1) == Used(s.mem, root, v, m) + 1 + NewTables(s.mem, root, v, m);
    if lost != 0 {
      assert TooFew(pool, s, root, v, m);
    }
    if k: nat :| k * PAGE < end - v && TooFew(pool, s, root, v, k) {
      assert Used(s.mem, root, v, k + 1) == Used(s.mem, root, v, k) + 1 + NewTables(s.mem, root, v, k);
      if k < m { UsedGrows(s.mem, root, v, k + 1, m); }
      if m < k { UsedGrows(s.mem, root, v, m + 1, k); }
    }
  }

  lemma CountedOn(pool: Pool, s: Frames, s2: Frames, root: nat, v: nat, end: nat, m: nat, lost: nat)
    requires v + PAGE <= end && GrownBy(s.mem, s2.mem, root, PageOf(v))
    requires s.next <= pool.end && Counted(pool, s2, root, v + PAGE, end, m, lost)
    requires Spare(pool, s2) == Spare(pool, s) - 1 - Missing(s.mem, root, PageOf(v))
    ensures Counted(pool, s, root, v, end, m + 1, lost)
  {
    hide Used, Spare, Missing, PageOf, GrownBy;
    UsedShift(s.mem, s2.mem, root, v, m);
    UsedShift(s.mem, s2.mem, root, v, m + 1);
  }

  /** allocate_user_stack's loop maps pages from the bottom up until the frames run out, and returns the
      frame of the lowest one. Each page gets a frame of its own, other pages are untouched, and everything
      it took is owned by the space but for `lost`, the frame in hand when map_page fails: that one is in
      use and reached by nobody. A frame is lost exactly when, at some page, the allocator has a frame for
      the page and too few for the tables the page needs. */
  lemma StackMaps(pool: Pool, s: Frames, root: nat, v: nat, end: nat, first: nat) returns (m: nat, lost: nat)
    requires Space(pool, s, root) && Owner(pool, s, root) && v <= end <= USER_END && (end - v) % PAGE == 0
    ensures var (s', r) := StackLoop(pool, s, root, v, end, first);
            && s.next <= pool.end && m * PAGE <= end - v
            && StackDone(pool, s, s', root, v, m, lost)
            && Used(s.mem, root, v, m) <= Spare(pool, s)
            && (m * PAGE < end - v ==> Spare(pool, s) < Used(s.mem, root, v, m + 1))
            && (lost != 0 <==> StackLoses(pool, s, root, v, end))
            && (lost != 0 ==> m * PAGE < end - v && Leaked(pool, s, s', root, lost))
            && (r == 0 <==> first == 0 && (v == end || Spare(pool, s) == 0))
            && (first != 0 ==> r == first)
            && (first == 0 && m > 0 ==> FirstIs(s', root, v, r))
  {
    hide StackLoop, StackDone, Space, Owner, Used, StackLoses, Leaked, FirstIs, Spare;
    m, lost := LoopMaps(pool, s, root, v, end, first);
    CountedLoses(pool, s, root, v, end, m, lost);
  }

  lemma {:induction false} LoopMaps(pool: Pool, s: Frames, root: nat, v: nat, end: nat, first: nat) returns (m: nat, lost: nat)
    requires Space(pool, s, root) && Owner(pool, s, root) && v <= end <= USER_END && (end - v) % PAGE == 0
    ensures var (s', r) := StackLoop(pool, s, root, v, end, first);
            && StackDone(pool, s, s', root, v, m, lost)
            && Counted(pool, s, root, v, end, m, lost)
            && (lost != 0 ==> Leaked(pool, s, s', root, lost))
            && (r == 0 <==> first == 0 && (v == end || Spare(pool, s) == 0))
            && (first != 0 ==> r == first)
            && (first == 0 && m > 0 ==> FirstIs(s', root, v, r))
    decreases end - v
  {
    hide MapPage, StackDone, PageOf, Entry, Space, Owner, Alloc, FirstIs, Leaked, Used, Spare, Missing, GrownBy, Counted;
    var (s1, f) := Alloc(pool, s);
    StackCost(pool, s, root, v);
    if v == end || f == 0 {
      m, lost := 0, 0;
      StackNone(pool, s, root, v);
      FailedAlloc(pool, s, root);
      CountedNone(pool, s, root, v, end, 0);
    } else {
      StackStep(pool, s, root, v);
      var (s2, ok) := MapPage(pool, s1, root, PageOf(v), Entry(f, STACK_FLAGS));
      if ok {
        StackDoneSpace(pool, s, s2, root, v, 1, 0);
        var m', lost' := LoopMaps(pool, s2, root, v + PAGE, end, if first == 0 then f else first);
        m, lost := m' + 1, lost';
        var s' := StackLoop(pool, s, root, v, end, first).0;
        CountedOn(pool, s, s2, root, v, end, m', lost);
        CountedEnd(pool, s2, root, v + PAGE, end, m', lost);
        StackOn(pool, s, s2, s', root, v, m', lost);
        FirstStays(pool, s2, s', root, v, m', lost, f);
        LeakedBefore(pool, s, s2, s', root, v, lost);
      } else {
        m, lost := 0, f;
        CountedNone(pool, s, root, v, end, f);
      }
    }
  }

  lemma CountedNone(pool: Pool, s: Frames, root: nat, v: nat, end: nat, lost: nat)
    requires s.next <= pool.end && v <= end
    requires v == end || Spare(pool, s) < 1 + Missing(s.mem, root, PageOf(v))
    requires lost != 0 <==> v < end && Spare(pool, s) > 0
    ensures Counted(pool, s, root, v, end, 0, lost)
  {
    hide Spare, Missing, PageOf, NewTables;
    FirstNewTables(s.mem, root, v);
  }

  lemma CountedEnd(pool: Pool, s: Frames, root: nat, v: nat, end: nat, m: nat, lost: nat)
    requires Counted(pool, s, root, v, end, m, lost) && v <= end
    ensures v + m * PAGE <= end
  {
  }

  lemma LeakedBefore(pool: Pool, s: Frames, s2: Frames, s': Frames, root: nat, v: nat, lost: nat)
    requires StackDone(pool, s, s2, root, v, 1, 0)
    ensures Leaked(pool, s2, s', root, lost) ==> Leaked(pool, s, s', root, lost)
  {
    hide Taken, IsLower, Space, Owner, StackMapped;
  }

  lemma FirstStays(pool: Pool, s2: Frames, s': Frames, root: nat, v: nat, m: nat, lost: nat, f: nat)
    requires FirstIs(s2, root, v, f) && StackDone(pool, s2, s', root, v + PAGE, m, lost)
    requires v + (m + 1) * PAGE < USER_END + PAGE
    ensures FirstIs(s', root, v, f)
  {
    hide Reach, Space, Owner, Taken, PageOf, Ends, Beyond, InStack;
    StackSplit(v, v + PAGE, m);
  }

  lemma StackDoneSpace(pool: Pool, s: Frames, s': Frames, root: nat, v: nat, m: nat, lost: nat)
    requires StackDone(pool, s, s', root, v, m, lost)
    ensures Space(pool, s', root) && Owner(pool, s', root)
  {
  }

  lemma StackNone(pool: Pool, s: Frames, root: nat, v: nat)
    requires Space(pool, s, root) && Owner(pool, s, root)
    ensures StackDone(pool, s, s, root, v, 0, 0)
  {
  }

  /** Allocating a user stack and tearing the address space down gives back every frame the stack took,
      except, exactly when the frames run out at a page that has its own but lacks some for its tables,
      the one frame in hand: that one stays in use for good. */
  lemma StackThenDestroy(pool: Pool, s: Frames, root: nat, top: nat, size: nat) returns (lost: nat)
    requires Space(pool, s, root) && Owner(pool, s, root) && 0 < size <= top <= USER_END
    requires StackBytes(size) <= top
    ensures s.next <= pool.end
    ensures var (s', r) := AllocateUserStack(pool, s, root, top, size);
            var s'' := Destroy(pool, s', root);
            && Good(pool, s'')
            && Out(pool, s'') - Out(pool, s) == (if StackLoses(pool, s, root, top - StackBytes(size), top) then {lost} else {})
            && (forall f :: f in Out(pool, s) && !Returned(pool, s', root, f) ==> f in Out(pool, s''))
  {
    hide *;
    StackBase(top, size);
    var v := top - StackBytes(size);
    var m: nat;
    m, lost := StackMaps(pool, s, root, v, top, 0);
    StackIsLoop(pool, s, root, top, size);
    var s' := StackLoop(pool, s, root, v, top, 0).0;
    StackDoneSpace(pool, s, s', root, v, m, lost);
    DestroyConserves(pool, s', root);
    StackFrames(pool, s, s', root, v, m, lost);
    if lost != 0 {
      LeakedOut(pool, s, s', root, lost);
    } else {
      ZeroNotOut(pool, s', root);
    }
  }

  /** The leaked frame is not among those the teardown returns. */
  lemma LeakedOut(pool: Pool, s: Frames, s': Frames, root: nat, f: nat)
    requires Leaked(pool, s, s', root, f) && Owner(pool, s, root)
    ensures f in Out(pool, s') && f !in Out(pool, s) && !Returned(pool, s', root, f)
  {
    hide Taken, IsLower;
  }

  lemma ZeroNotOut(pool: Pool, s: Frames, root: nat)
    requires Owner(pool, s, root)
    ensures 0 !in Out(pool, s)
  {
    hide Taken, IsLower, Exclusive;
  }

  /** A space with no table for the stack yet loses a frame whenever the allocator has one to three left. */
  lemma EmptySpaceLoses(pool: Pool, s: Frames, root: nat, v: nat, end: nat)
    requires s.next <= pool.end && 1 <= Spare(pool, s) <= 3 && v < end
    requires Reach(s.mem, root, PageOf(v)[..1]) == None
    ensures StackLoses(pool, s, root, v, end)
  {
    hide Spare, Reach, PageOf, NewTables;
    FirstNewTables(s.mem, root, v);
    assert TooFew(pool, s, root, v, 0);
  }

  function StackBytes(size: nat): nat {
    (size + PAGE - 1) / PAGE * PAGE
  }

  lemma StackBase(top: nat, size: nat)
    requires StackBytes(size) <= top <= USER_END
    ensures (top - (top - StackBytes(size))) % PAGE == 0
  {
  }

  lemma StackIsLoop(pool: Pool, s: Frames, root: nat, top: nat, size: nat)
    requires 0 < size <= top <= USER_END && StackBytes(size) <= top
    ensures AllocateUserStack(pool, s, root, top, size) == StackLoop(pool, s, root, top - StackBytes(size), top, 0)
  {
    hide StackLoop;
    assert (size + PAGE - 1) % WIDTH == size + PAGE - 1;
    assert (top - StackBytes(size)) % WIDTH == top - StackBytes(size);
  }

  /** The frames in use after the stack is allocated. */
  lemma StackFrames(pool: Pool, s: Frames, s': Frames, root: nat, v: nat, m: nat, lost: nat)
    requires StackDone(pool, s, s', root, v, m, lost)
    ensures forall f :: f in Out(pool, s) ==> f in Out(pool, s')
    ensures forall f :: f in Out(pool, s') ==> f in Out(pool, s) || f == lost || Returned(pool, s', root, f)
  {
    hide Taken, IsLower, Space, Owner, StackMapped;
    forall f | f in Out(pool, s') && f !in Out(pool, s)
      ensures f == lost || Returned(pool, s', root, f)
    {
      assert PoolFrame(pool, f);
    }
    forall f | f in Out(pool, s)
      ensures f in Out(pool, s')
    {
      assert PoolFrame(pool, f);
    }
  }

  // ---- Which addresses the stack covers ----

  /** The size asked for, rounded up to whole pages. */
  lemma StackBytesIs(size: nat)
    ensures size <= StackBytes(size) < size + 4096 && StackBytes(size) % 4096 == 0
  {
  }

  /** With frames for all its pages a stack covers every byte from `size` below its top up to the page
      boundary at or below the top, open to user code; the page that a top off a boundary lies in stays as it was. */
  lemma StackCovers(pool: Pool, s: Frames, root: nat, top: nat, size: nat, w: nat)
    requires Space(pool, s, root) && Owner(pool, s, root) && 0 < size <= top <= USER_END && StackBytes(size) <= top
    requires Used(s.mem, root, top - StackBytes(size), StackBytes(size) / 4096) <= Spare(pool, s)
    ensures var mem := AllocateUserStack(pool, s, root, top, size).0.mem;
            && (top - size <= w < top - top % 4096 ==>
                  Translate(mem, root, PageOf(w)).Some? && OpenToUser(Translate(mem, root, PageOf(w)).value))
            && (top - top % 4096 <= w < top ==> Translate(mem, root, PageOf(w)) == Translate(s.mem, root, PageOf(w)))
  {
    hide *;
    StackBase(top, size);
    StackBytesIs(size);
    WholePages(size);
    var v, n := top - StackBytes(size), StackBytes(size) / 4096;
    var m, lost := StackMaps(pool, s, root, v, top, 0);
    StackIsLoop(pool, s, root, top, size);
    AllMapped(s.mem, root, v, top, m, n, Spare(pool, s));
    var s' := StackLoop(pool, s, root, v, top, 0).0;
    if top - size <= w < top - top % 4096 {
      var k := PageInStack(v, top, n, w, size);
      StackPageMapped(pool, s, s', root, v, n, lost, k);
    } else if top - top % 4096 <= w < top {
      TopPage(v, top, n, w, size);
      StackElsewhere(pool, s, s', root, v, n, lost, PageOf(w));
    }
  }

  lemma WholePages(size: nat)
    ensures StackBytes(size) / 4096 * PAGE == StackBytes(size)
  {
  }

  lemma AllMapped(mem: Memory, root: nat, v: nat, top: nat, m: nat, n: nat, spare: nat)
    requires n * PAGE == top - v && m * PAGE <= top - v
    requires Used(mem, root, v, n) <= spare && (m * PAGE < top - v ==> spare < Used(mem, root, v, m + 1))
    ensures m == n
  {
    hide Used;
    if m < n { UsedGrows(mem, root, v, m + 1, n); }
  }

  lemma PageInStack(v: nat, top: nat, n: nat, w: nat, size: nat) returns (k: nat)
    requires v + n * PAGE == top <= USER_END && v <= w < top - top % 4096
    ensures k < n && StackPage(v, k) == PageOf(w)
  {
    k := w / PAGE - v / PAGE;
    assert top % 4096 == v % 4096 by { SamePlace(v, n); }
    assert (v + k * PAGE) / PAGE == w / PAGE;
    SamePage(v + k * PAGE, w);
    hide PageOf;
  }

  lemma SamePlace(v: nat, n: nat)
    ensures (v + n * PAGE) % PAGE == v % PAGE && (v + n * PAGE) / PAGE == v / PAGE + n
  {
  }

  lemma TopPage(v: nat, top: nat, n: nat, w: nat, size: nat)
    requires v + n * PAGE == top <= USER_END && top - top % 4096 <= w < top
    ensures !InStack(v, n, PageOf(w))
  {
    SamePlace(v, n);
    hide PageOf;
    forall k: nat | k < n
      ensures PageOf(w) != StackPage(v, k)
    {
      SamePlace(v, k);
      SamePage(v + k * PAGE, w);
    }
  }

  lemma StackPageMapped(pool: Pool, s: Frames, s': Frames, root: nat, v: nat, m: nat, lost: nat, k: nat)
    requires StackDone(pool, s, s', root, v, m, lost) && k < m
    ensures var t := Translate(s'.mem, root, StackPage(v, k)); t.Some? && OpenToUser(t.value)
  {
    assert StackMapped(pool, s, s', root, v, k);
  }

  lemma StackElsewhere(pool: Pool, s: Frames, s': Frames, root: nat, v: nat, m: nat, lost: nat, q: Path)
    requires StackDone(pool, s, s', root, v, m, lost) && PagePath(q) && !InStack(v, m, q)
    ensures Translate(s'.mem, root, q) == Translate(s.mem, root, q)
  {
  }
}
