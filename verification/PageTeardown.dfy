/** destroy_user_mappings: every frame the lower half owns goes back to the pool exactly once. */
module PageTeardown {
  import opened Options
  import opened PhysFrames
  import opened PageTables

  const LEVELS: nat := 4
  /** Root entries of the lower half of the address space. */
  const LOWER: nat := 256

  // ---- Operations ----

  /** Clearing the first `n` entries of table `t`. Level 1 is a page table, whose entries are pages. */
  function ClearEntries(pool: Pool, s: Frames, t: nat, level: nat, n: nat): Frames
    decreases level, n
  {
    if n == 0 || level == 0 then s
    else
      var s1 := ClearEntries(pool, s, t, level, n - 1);
      var e := Word(s1.mem, t, n - 1);
      if !Present(e) then s1
      else if level == 1 then Release(pool, Frames(SetWord(s1.mem, t, n - 1, 0), s1.free, s1.next), Addr(e))
      else
        var s2 := Release(pool, ClearEntries(pool, s1, Addr(e), level - 1, SLOTS), Addr(e));
        Frames(SetWord(s2.mem, t, n - 1, 0), s2.free, s2.next)
  }

  /** What the turn for entry `n - 1` does. */
  lemma ClearNext(pool: Pool, s: Frames, t: nat, level: nat, n: nat)
    requires n > 0 && level > 0
    ensures var s1 := ClearEntries(pool, s, t, level, n - 1);
            var e := Word(s1.mem, t, n - 1);
            && Addr(e) % PAGE == 0
            && ClearEntries(pool, s, t, level, n)
               == (if !Present(e) then s1
                   else if level == 1 then Release(pool, Frames(SetWord(s1.mem, t, n - 1, 0), s1.free, s1.next), Addr(e))
                   else
                     var s3 := Release(pool, ClearEntries(pool, s1, Addr(e), level - 1, SLOTS), Addr(e));
                     Frames(SetWord(s3.mem, t, n - 1, 0), s3.free, s3.next))
  {
    hide Release, SetWord, Word;
  }

  /** destroy_user_mappings. */
  function Destroy(pool: Pool, s: Frames, root: nat): Frames {
    if root == 0 then s else Release(pool, ClearEntries(pool, s, root, LEVELS, LOWER), root)
  }

  // ---- The frames a table owns ----

  /** The tables below the first `n` entries of `t` and the pool frames mapped there, each before the
      table it hangs from. */
  function Owned(pool: Pool, mem: Memory, t: nat, level: nat, n: nat): seq<nat>
    decreases level, n, 1
  {
    if n == 0 || level == 0 then [] else Owned(pool, mem, t, level, n - 1) + Under(pool, mem, t, level, n - 1)
  }

  function Under(pool: Pool, mem: Memory, t: nat, level: nat, i: nat): seq<nat>
    requires level > 0
    decreases level, i, 0
  {
    var e := Word(mem, t, i);
    if !Present(e) then []
    else if level == 1 then (if InPool(pool, Addr(e)) then [Addr(e)] else [])
    else Owned(pool, mem, Addr(e), level - 1, SLOTS) + [Addr(e)]
  }

  /** The free list after releasing the frames of `list` one by one. */
  function Pushed(pool: Pool, free: seq<nat>, list: seq<nat>): (r: seq<nat>)
    ensures forall f :: f in r <==> f in free || (f in list && f != 0 && InPool(pool, f))
  {
    if list == [] then free
    else
      var front := Pushed(pool, free, list[..|list| - 1]);
      var f := list[|list| - 1];
      assert forall g :: g in list <==> g in list[..|list| - 1] || g == f;
      if f != 0 && InPool(pool, f) then [f] + front else front
  }

  lemma {:induction false} PushedOn(pool: Pool, free: seq<nat>, a: seq<nat>, b: seq<nat>)
    ensures Pushed(pool, Pushed(pool, free, a), b) == Pushed(pool, free, a + b)
    decreases |b|
  {
    if b == [] {
      assert a + b == a;
    } else {
      assert (a + b)[..|a + b| - 1] == a + b[..|b| - 1];
      PushedOn(pool, free, a, b[..|b| - 1]);
    }
  }

  lemma DistinctParts(a: seq<nat>, b: seq<nat>)
    requires Distinct(a + b)
    ensures Distinct(a) && Distinct(b) && forall x :: x in a ==> x !in b
  {
    forall i, j | 0 <= i < |a| && 0 <= j < |b|
      ensures a[i] != b[j]
    {
      assert (a + b)[i] == a[i] && (a + b)[|a| + j] == b[j];
    }
    assert forall i, j :: 0 <= i < j < |b| ==> (a + b)[|a| + i] == b[i] && (a + b)[|a| + j] == b[j];
    assert forall i :: 0 <= i < |a| ==> (a + b)[i] == a[i];
  }

  /** What a table owns depends on the contents of its tables alone. */
  lemma {:induction false} OwnedSame(pool: Pool, mem: Memory, mem': Memory, t: nat, level: nat, n: nat)
    requires forall f, i :: f == t || f in Owned(pool, mem, t, level, n) ==> Word(mem', f, i) == Word(mem, f, i)
    ensures Owned(pool, mem', t, level, n) == Owned(pool, mem, t, level, n)
    decreases level, n
  {
    if n > 0 && level > 0 {
      OwnedParts(pool, mem, t, level, n);
      hide Word, Owned, Addr;
      OwnedSame(pool, mem, mem', t, level, n - 1);
      var e := Word(mem, t, n - 1);
      assert Word(mem', t, n - 1) == e;
      if Present(e) && level > 1 {
        OwnedSame(pool, mem, mem', Addr(e), level - 1, SLOTS);
      }
      OwnedUnfold(pool, mem', t, level, n);
    }
  }

  lemma OwnedUnfold(pool: Pool, mem: Memory, t: nat, level: nat, n: nat)
    requires n > 0 && level > 0
    ensures Owned(pool, mem, t, level, n) == Owned(pool, mem, t, level, n - 1) + Under(pool, mem, t, level, n - 1)
  {
  }

  lemma OwnedParts(pool: Pool, mem: Memory, t: nat, level: nat, n: nat)
    requires n > 0 && level > 0
    ensures var owned, e := Owned(pool, mem, t, level, n), Word(mem, t, n - 1);
            && owned == Owned(pool, mem, t, level, n - 1) + Under(pool, mem, t, level, n - 1)
            && (forall f :: f in Owned(pool, mem, t, level, n - 1) ==> f in owned)
            && (Present(e) && level > 1 ==>
                  Addr(e) in owned && forall f :: f in Owned(pool, mem, Addr(e), level - 1, SLOTS) ==> f in owned)
  {
    var a, b, e := Owned(pool, mem, t, level, n - 1), Under(pool, mem, t, level, n - 1), Word(mem, t, n - 1);
    OwnedUnfold(pool, mem, t, level, n);
    if Present(e) && level > 1 {
      var sub := Owned(pool, mem, Addr(e), level - 1, SLOTS);
      assert b == sub + [Addr(e)];
      hide Owned;
      assert Addr(e) in sub + [Addr(e)];
      assert forall f :: f in sub ==> f in sub + [Addr(e)];
      assert forall f :: f in b ==> f in a + b;
    }
  }

  // ---- Clearing ----

  /** Table `t` and what it owns below `n` are in use, each frame once. */
  ghost predicate Tidy(pool: Pool, s: Frames, t: nat, level: nat, n: nat) {
    && Good(pool, s) && Taken(pool, s, t)
    && Distinct(Owned(pool, s.mem, t, level, n)) && t !in Owned(pool, s.mem, t, level, n)
    && forall f :: f in Owned(pool, s.mem, t, level, n) ==> Taken(pool, s, f)
  }

  /** After clearing: the owned frames are released in order, no other frame has changed, and the free
      list is still threaded through its frames. */
  ghost predicate Cleared(pool: Pool, s: Frames, s': Frames, t: nat, n: nat, owned: seq<nat>) {
    && Good(pool, s') && s'.next == s.next && (forall f :: f in s'.mem <==> f in s.mem)
    && s'.free == Pushed(pool, s.free, owned) && (Threaded(s) ==> Threaded(s'))
    && (forall f: nat, j: nat :: f != t && f !in owned ==> Word(s'.mem, f, j) == Word(s.mem, f, j))
    && (forall j: nat :: j >= n ==> Word(s'.mem, t, j) == Word(s.mem, t, j))
    && (forall j: nat :: j < n ==> !Present(Word(s'.mem, t, j)))
  }

  lemma ReleaseKeeps(pool: Pool, s: Frames, s2: Frames, t: nat, i: nat, owned: seq<nat>, f: nat)
    requires Cleared(pool, s, s2, t, i, owned)
    requires f % PAGE == 0 && Taken(pool, s, f) && f !in owned && f != t
    ensures Cleared(pool, s, Release(pool, s2, f), t, i, owned + [f])
  {
    FrameFreed(pool, s, s2, owned, f);
    SetWordAt(s2.mem, f, 0, HeadOf(s2.free));
    hide Pushed, Good, Word, SetWord, Taken, Threaded;
    assert forall g :: g in owned + [f] <==> g in owned || g == f;
  }

  lemma FrameFreed(pool: Pool, s: Frames, s2: Frames, owned: seq<nat>, f: nat)
    requires Good(pool, s2) && s2.next == s.next && s2.free == Pushed(pool, s.free, owned)
    requires f % PAGE == 0 && Taken(pool, s, f) && f !in owned
    ensures var s3 := Release(pool, s2, f);
            && Good(pool, s3) && s3.next == s.next && (forall g :: g in s3.mem <==> g in s2.mem)
            && s3.free == Pushed(pool, s.free, owned + [f]) && (Threaded(s2) ==> Threaded(s3))
  {
    assert Taken(pool, s2, f);
    ReleaseOut(pool, s2, f);
    if Threaded(s2) { ReleaseThreads(pool, s2, f); }
    hide Taken, Good, Threaded, Word;
    PushedOn(pool, s.free, owned, [f]);
    PushedOne(pool, s2.free, f);
    SetWordAt(s2.mem, f, 0, HeadOf(s2.free));
    hide Pushed, SetWord;
  }

  lemma PushedOne(pool: Pool, free: seq<nat>, f: nat)
    ensures Pushed(pool, free, [f]) == if f != 0 && InPool(pool, f) then [f] + free else free
  {
    assert [f][..0] == [];
  }

  lemma NoWord(mem: Memory, t: nat, i: nat)
    ensures !(t in mem && i < |mem[t]|) ==> Word(mem, t, i) == 0
  {
  }

  lemma EntryKeeps(pool: Pool, s: Frames, s2: Frames, t: nat, i: nat, owned: seq<nat>)
    requires Cleared(pool, s, s2, t, i, owned) && Taken(pool, s, t) && t !in owned
    ensures Cleared(pool, s, Frames(SetWord(s2.mem, t, i, 0), s2.free, s2.next), t, i + 1, owned)
    ensures !Present(Word(s.mem, t, i)) ==> Cleared(pool, s, s2, t, i + 1, owned)
  {
    SetWordAt(s2.mem, t, i, 0);
    NoWord(s2.mem, t, i);
    assert t !in s2.free;
    if Threaded(s2) { StoreThreads(s2, t, i, 0); }
    hide Pushed, Word, SetWord, Threaded;
    var s' := Frames(SetWord(s2.mem, t, i, 0), s2.free, s2.next);
    GoodAfterHook(pool, s2, s', t, i, 0);
  }

  /** Clearing a child table and releasing it. */
  lemma ChildKeeps(pool: Pool, s: Frames, s1: Frames, s2: Frames, t: nat, i: nat, owned: seq<nat>, c: nat, sub: seq<nat>)
    requires Cleared(pool, s, s1, t, i, owned) && Cleared(pool, s1, s2, c, SLOTS, sub)
    requires c % PAGE == 0 && Taken(pool, s, c) && c !in owned && c != t && c !in sub && t !in sub
    ensures Cleared(pool, s, Release(pool, s2, c), t, i, owned + (sub + [c]))
  {
    hide Pushed, Word, Threaded, Release, Good, Taken;
    ChildFreed(pool, s, s1, s2, t, i, owned, c, sub);
    ChildWords(pool, s, s1, s2, t, i, owned, c, sub);
  }

  lemma ChildFreed(pool: Pool, s: Frames, s1: Frames, s2: Frames, t: nat, i: nat, owned: seq<nat>, c: nat, sub: seq<nat>)
    requires Cleared(pool, s, s1, t, i, owned) && Cleared(pool, s1, s2, c, SLOTS, sub)
    requires c % PAGE == 0 && Taken(pool, s, c) && c !in owned && c !in sub
    ensures var s3 := Release(pool, s2, c);
            && Good(pool, s3) && s3.next == s.next && (forall f :: f in s3.mem <==> f in s.mem)
            && s3.free == Pushed(pool, s.free, owned + (sub + [c])) && (Threaded(s) ==> Threaded(s3))
  {
    assert Taken(pool, s2, c);
    ReleaseOut(pool, s2, c);
    if Threaded(s2) { ReleaseThreads(pool, s2, c); }
    hide Taken, Good, Threaded, Word;
    PushedOn(pool, s.free, owned, sub + [c]);
    PushedOn(pool, s1.free, sub, [c]);
    PushedOne(pool, s2.free, c);
    SetWordAt(s2.mem, c, 0, HeadOf(s2.free));
    hide Pushed, SetWord;
  }

  lemma ChildWords(pool: Pool, s: Frames, s1: Frames, s2: Frames, t: nat, i: nat, owned: seq<nat>, c: nat, sub: seq<nat>)
    requires Cleared(pool, s, s1, t, i, owned) && Cleared(pool, s1, s2, c, SLOTS, sub)
    requires c != t && t !in sub
    ensures var s3 := Release(pool, s2, c);
            && (forall f: nat, j: nat :: f != t && f !in owned + (sub + [c]) ==> Word(s3.mem, f, j) == Word(s.mem, f, j))
            && (forall j: nat :: j >= i ==> Word(s3.mem, t, j) == Word(s.mem, t, j))
            && (forall j: nat :: j < i ==> !Present(Word(s3.mem, t, j)))
  {
    SetWordAt(s2.mem, c, 0, HeadOf(s2.free));
    hide Pushed, Good, Word, SetWord, Taken, Threaded;
    assert forall g :: g in owned + (sub + [c]) <==> g in owned || g in sub || g == c;
    assert forall j: nat :: Word(s2.mem, t, j) == Word(s1.mem, t, j);
  }

  lemma Commute(pool: Pool, s: Frames, t: nat, i: nat, f: nat)
    requires f != t
    ensures Release(pool, Frames(SetWord(s.mem, t, i, 0), s.free, s.next), f)
            == var s2 := Release(pool, s, f); Frames(SetWord(s2.mem, t, i, 0), s2.free, s2.next)
  {
  }

  /** The child of entry `i` is as tidy as its parent was, after the entries before it are cleared. */
  lemma ChildTidy(pool: Pool, s: Frames, s1: Frames, t: nat, level: nat, i: nat)
    requires level > 1 && Tidy(pool, s, t, level, i + 1) && Present(Word(s.mem, t, i))
    requires Cleared(pool, s, s1, t, i, Owned(pool, s.mem, t, level, i))
    ensures var c := Addr(Word(s.mem, t, i));
            var sub := Owned(pool, s.mem, c, level - 1, SLOTS);
            && Tidy(pool, s1, c, level - 1, SLOTS) && Owned(pool, s1.mem, c, level - 1, SLOTS) == sub
            && Owned(pool, s.mem, t, level, i + 1) == Owned(pool, s.mem, t, level, i) + (sub + [c])
            && Taken(pool, s, c) && c !in Owned(pool, s.mem, t, level, i) && c != t && c !in sub && t !in sub
  {
    var c, before := Addr(Word(s.mem, t, i)), Owned(pool, s.mem, t, level, i);
    var sub := Owned(pool, s.mem, c, level - 1, SLOTS);
    assert Owned(pool, s.mem, t, level, i + 1) == before + (sub + [c]);
    hide Owned;
    DistinctParts(before, sub + [c]);
    DistinctParts(sub, [c]);
    assert c in [c] && forall f :: f in sub + [c] <==> f in sub || f == c;
    assert forall f :: f in before + (sub + [c]) <==> f in before || f in sub + [c];
    forall f, j | f == c || f in sub
      ensures Word(s1.mem, f, j) == Word(s.mem, f, j)
    {
      assert f !in before && f != t;
    }
    OwnedSame(pool, s.mem, s1.mem, c, level - 1, SLOTS);
  }

  lemma ClearPage(pool: Pool, s: Frames, s1: Frames, t: nat, i: nat)
    requires Tidy(pool, s, t, 1, i + 1) && Present(Word(s.mem, t, i))
    requires Cleared(pool, s, s1, t, i, Owned(pool, s.mem, t, 1, i))
    ensures var f := Addr(Word(s.mem, t, i));
            Cleared(pool, s, Release(pool, Frames(SetWord(s1.mem, t, i, 0), s1.free, s1.next), f), t, i + 1,
                    Owned(pool, s.mem, t, 1, i + 1))
  {
    var f, before := Addr(Word(s.mem, t, i)), Owned(pool, s.mem, t, 1, i);
    assert Owned(pool, s.mem, t, 1, i + 1) == before + Under(pool, s.mem, t, 1, i);
    hide Owned, Cleared;
    if InPool(pool, f) {
      assert Owned(pool, s.mem, t, 1, i + 1) == before + [f];
      DistinctParts(before, [f]);
      assert f in [f] && f in before + [f];
      ReleaseKeeps(pool, s, s1, t, i, before, f);
      EntryKeeps(pool, s, Release(pool, s1, f), t, i, before + [f]);
      Commute(pool, s1, t, i, f);
    } else {
      assert Owned(pool, s.mem, t, 1, i + 1) == before;
      EntryKeeps(pool, s, s1, t, i, before);
    }
  }

  lemma ClearTable(pool: Pool, s: Frames, s1: Frames, s2: Frames, t: nat, level: nat, i: nat)
    requires level > 1 && Tidy(pool, s, t, level, i + 1) && Present(Word(s.mem, t, i))
    requires Cleared(pool, s, s1, t, i, Owned(pool, s.mem, t, level, i))
    requires var c := Addr(Word(s.mem, t, i));
             Cleared(pool, s1, s2, c, SLOTS, Owned(pool, s1.mem, c, level - 1, SLOTS))
    ensures var s3 := Release(pool, s2, Addr(Word(s.mem, t, i)));
            Cleared(pool, s, Frames(SetWord(s3.mem, t, i, 0), s3.free, s3.next), t, i + 1,
                    Owned(pool, s.mem, t, level, i + 1))
  {
    hide Owned, Cleared, Tidy;
    var c := Addr(Word(s.mem, t, i));
    ChildTidy(pool, s, s1, t, level, i);
    TidySelf(pool, s, t, level, i + 1);
    var sub, before := Owned(pool, s.mem, c, level - 1, SLOTS), Owned(pool, s.mem, t, level, i);
    ChildKeeps(pool, s, s1, s2, t, i, before, c, sub);
    EntryKeeps(pool, s, Release(pool, s2, c), t, i, before + (sub + [c]));
  }

  lemma {:induction false} ClearReleases(pool: Pool, s: Frames, t: nat, level: nat, n: nat)
    requires Tidy(pool, s, t, level, n) && level > 0
    ensures Cleared(pool, s, ClearEntries(pool, s, t, level, n), t, n, Owned(pool, s.mem, t, level, n))
    decreases level, n
  {
    if n > 0 {
      hide Pushed, Good, Taken, Release;
      TidyFront(pool, s, t, level, n);
      ClearReleases(pool, s, t, level, n - 1);
      var s1 := ClearEntries(pool, s, t, level, n - 1);
      var e := Word(s.mem, t, n - 1);
      assert Word(s1.mem, t, n - 1) == e;
      if !Present(e) {
        assert Owned(pool, s.mem, t, level, n) == Owned(pool, s.mem, t, level, n - 1);
        EntryKeeps(pool, s, s1, t, n - 1, Owned(pool, s.mem, t, level, n - 1));
      } else if level == 1 {
        ClearPage(pool, s, s1, t, n - 1);
      } else {
        ChildTidy(pool, s, s1, t, level, n - 1);
        ClearReleases(pool, s1, Addr(e), level - 1, SLOTS);
        ClearTable(pool, s, s1, ClearEntries(pool, s1, Addr(e), level - 1, SLOTS), t, level, n - 1);
      }
    }
  }

  lemma TidySelf(pool: Pool, s: Frames, t: nat, level: nat, n: nat)
    requires Tidy(pool, s, t, level, n)
    ensures Taken(pool, s, t) && t !in Owned(pool, s.mem, t, level, n)
  {
  }

  lemma TidyFront(pool: Pool, s: Frames, t: nat, level: nat, n: nat)
    requires Tidy(pool, s, t, level, n) && level > 0 && n > 0
    ensures Tidy(pool, s, t, level, n - 1)
  {
    var a, b := Owned(pool, s.mem, t, level, n - 1), Under(pool, s.mem, t, level, n - 1);
    assert Owned(pool, s.mem, t, level, n) == a + b;
    hide Owned, Under;
    DistinctParts(a, b);
    assert forall f :: f in a ==> f in a + b;
  }

  // ---- Ownership by paths ----

  /** `q` goes on from `p` through one of its first `n` entries. */
  predicate Beyond(q: Path, p: Path, n: nat) {
    |p| < |q| <= LEVELS && Slotted(q) && q[..|p|] == p && q[|p|] < n
  }

  /** The walk along `q` ends in a table, or in a page whose frame is the pool's. */
  predicate Ends(pool: Pool, mem: Memory, root: nat, q: Path, f: nat) {
    Reach(mem, root, q) == Some(f) && (|q| < LEVELS || InPool(pool, f))
  }

  /** A frame reached from `root` through the lower half. */
  ghost predicate IsLower(pool: Pool, mem: Memory, root: nat, f: nat) {
    exists q :: Beyond(q, [], LOWER) && Ends(pool, mem, root, q, f)
  }

  /** Lower-half tables and pool frames are reached in one way only, and never lead back to the root. */
  ghost predicate Exclusive(pool: Pool, mem: Memory, root: nat) {
    && !IsLower(pool, mem, root, root)
    && (forall q, q', f ::
          Beyond(q, [], LOWER) && Beyond(q', [], LOWER) && Ends(pool, mem, root, q, f) && Ends(pool, mem, root, q', f)
          ==> q == q')
  }

  /** What a table owns is what the walk reaches beyond it. */
  lemma {:induction false} OwnedReached(pool: Pool, mem: Memory, root: nat, p: Path, n: nat, f: nat)
    requires |p| < LEVELS && Slotted(p) && Reach(mem, root, p).Some? && n <= SLOTS
    requires f in Owned(pool, mem, Reach(mem, root, p).value, LEVELS - |p|, n)
    ensures exists q :: Beyond(q, p, n) && Ends(pool, mem, root, q, f)
    decreases LEVELS - |p|, n
  {
    hide Reach, Word, Addr, Owned;
    var t, level := Reach(mem, root, p).value, LEVELS - |p|;
    if n == 0 { OwnedNone(pool, mem, t, level); }
    OwnedUnfold(pool, mem, t, level, n);
    if f in Owned(pool, mem, t, level, n - 1) {
      OwnedReached(pool, mem, root, p, n - 1, f);
      var q :| Beyond(q, p, n - 1) && Ends(pool, mem, root, q, f);
      assert Beyond(q, p, n);
    } else {
      assert f in Under(pool, mem, t, level, n - 1);
      ReachStep(mem, root, p, n - 1);
      var c := p + [n - 1];
      if f == Addr(Word(mem, t, n - 1)) {
        assert Beyond(c, p, n) && Ends(pool, mem, root, c, f);
      } else {
        OwnedReached(pool, mem, root, c, SLOTS, f);
        var q :| Beyond(q, c, SLOTS) && Ends(pool, mem, root, q, f);
        BeyondChild(q, p, n - 1);
      }
    }
  }

  lemma BeyondChild(q: Path, p: Path, i: nat)
    requires |p| < LEVELS && Beyond(q, p + [i], SLOTS)
    ensures Beyond(q, p, i + 1)
  {
    assert q[..|p|] == q[..|p| + 1][..|p|] == p;
    assert q[|p|] == q[..|p| + 1][|p|] == i;
  }

  lemma {:induction false} ReachedOwned(pool: Pool, mem: Memory, root: nat, p: Path, n: nat, q: Path, f: nat)
    requires |p| < LEVELS && Reach(mem, root, p).Some? && n <= SLOTS
    requires Beyond(q, p, n) && Ends(pool, mem, root, q, f)
    ensures f in Owned(pool, mem, Reach(mem, root, p).value, LEVELS - |p|, n)
    decreases LEVELS - |p|, n
  {
    hide Reach, Word, Addr, Owned;
    var t, level := Reach(mem, root, p).value, LEVELS - |p|;
    OwnedUnfold(pool, mem, t, level, n);
    if q[|p|] < n - 1 {
      ReachedOwned(pool, mem, root, p, n - 1, q, f);
    } else {
      var c := p + [n - 1];
      assert q[..|p| + 1] == c;
      ReachStep(mem, root, p, n - 1);
      ReachAlong(mem, root, q, |p| + 1);
      if |q| > |p| + 1 {
        assert Beyond(q, c, SLOTS);
        ReachedOwned(pool, mem, root, c, SLOTS, q, f);
      } else {
        assert q == c;
      }
      assert f in Under(pool, mem, t, level, n - 1);
    }
  }

  lemma {:induction false} ReachAlong(mem: Memory, root: nat, q: Path, k: nat)
    requires k <= |q| && Reach(mem, root, q).Some?
    ensures Reach(mem, root, q[..k]).Some?
    decreases |q| - k
  {
    if k < |q| {
      ReachAlong(mem, root, q, k + 1);
      ReachPrefix(mem, root, q, k);
    } else {
      assert q[..k] == q;
    }
  }

  /** Reached in one way means owned once. */
  lemma {:induction false} OwnedDistinct(pool: Pool, mem: Memory, root: nat, p: Path, n: nat)
    requires Exclusive(pool, mem, root) && Slotted(p) && |p| < LEVELS && Reach(mem, root, p).Some?
    requires if p == [] then n <= LOWER else p[0] < LOWER && n <= SLOTS
    ensures var own := Owned(pool, mem, Reach(mem, root, p).value, LEVELS - |p|, n);
            Distinct(own) && Reach(mem, root, p).value !in own
    decreases LEVELS - |p|, n
  {
    hide Exclusive, Reach, Word, Addr, Owned;
    var t, level := Reach(mem, root, p).value, LEVELS - |p|;
    if n == 0 {
      OwnedNone(pool, mem, t, level);
    } else {
      OwnedUnfold(pool, mem, t, level, n);
      OwnedDistinct(pool, mem, root, p, n - 1);
      var before := Owned(pool, mem, t, level, n - 1);
      ReachStep(mem, root, p, n - 1);
      if Present(Word(mem, t, n - 1)) {
        var c, f := p + [n - 1], Addr(Word(mem, t, n - 1));
        if level > 1 {
          OwnedDistinct(pool, mem, root, c, SLOTS);
          DistinctJoin(Owned(pool, mem, f, level - 1, SLOTS), [f]);
        }
        forall g | g in Under(pool, mem, t, level, n - 1)
          ensures g !in before && g != t
        {
          UnderApart(pool, mem, root, p, n - 1, g);
        }
      }
      DistinctJoin(before, Under(pool, mem, t, level, n - 1));
    }
  }

  lemma OwnedNone(pool: Pool, mem: Memory, t: nat, level: nat)
    ensures Owned(pool, mem, t, level, 0) == []
  {
  }

  lemma DistinctJoin(a: seq<nat>, b: seq<nat>)
    requires Distinct(a) && Distinct(b) && forall x :: x in b ==> x !in a
    ensures Distinct(a + b)
  {
    forall i, j | 0 <= i < j < |a + b|
      ensures (a + b)[i] != (a + b)[j]
    {
      if i < |a| <= j { assert b[j - |a|] in b && a[i] in a; }
    }
  }

  lemma UnderApart(pool: Pool, mem: Memory, root: nat, p: Path, i: nat, g: nat)
    requires Exclusive(pool, mem, root) && Slotted(p) && |p| < LEVELS && Reach(mem, root, p).Some?
    requires if p == [] then i < LOWER else p[0] < LOWER && i < SLOTS
    requires g in Under(pool, mem, Reach(mem, root, p).value, LEVELS - |p|, i)
    ensures g !in Owned(pool, mem, Reach(mem, root, p).value, LEVELS - |p|, i)
    ensures g != Reach(mem, root, p).value
  {
    var q := UnderPath(pool, mem, root, p, i, g);
    LowerBeyond(q, p, i + 1);
    if g in Owned(pool, mem, Reach(mem, root, p).value, LEVELS - |p|, i) {
      OwnedReached(pool, mem, root, p, i, g);
      var q' :| Beyond(q', p, i) && Ends(pool, mem, root, q', g);
      LowerBeyond(q', p, i);
      assert false;
    }
    if g == Reach(mem, root, p).value {
      assert p != [] ==> Beyond(p, [], LOWER) && Ends(pool, mem, root, p, g);
      assert false;
    }
  }

  lemma LowerBeyond(q: Path, p: Path, n: nat)
    requires Beyond(q, p, n) && if p == [] then n <= LOWER else p[0] < LOWER
    ensures Beyond(q, [], LOWER)
  {
    if p != [] { assert q[0] == q[..|p|][0]; }
  }

  lemma UnderPath(pool: Pool, mem: Memory, root: nat, p: Path, i: nat, g: nat) returns (q: Path)
    requires Slotted(p) && |p| < LEVELS && Reach(mem, root, p).Some? && i < SLOTS
    requires g in Under(pool, mem, Reach(mem, root, p).value, LEVELS - |p|, i)
    ensures Beyond(q, p, i + 1) && q[|p|] == i && Ends(pool, mem, root, q, g)
  {
    ReachStep(mem, root, p, i);
    q := p + [i];
    if g != Reach(mem, root, q).value {
      OwnedReached(pool, mem, root, q, SLOTS, g);
      var c := q;
      q :| Beyond(q, c, SLOTS) && Ends(pool, mem, root, q, g);
      BeyondChild(q, p, i);
      assert q[|p|] == q[..|c|][|p|];
    }
  }
}
