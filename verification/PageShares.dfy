/** New user address spaces: what create_user_pml4 shares, and what tearing one down does to the rest. */
module PageShares {
  import opened Options
  import opened PhysFrames
  import opened PageTables
  import opened PageTeardown
  import opened PageSpaces

  /** A lower-half entry with the user bit set. */
  function UserEntry(e: nat): (r: nat)
    ensures Present(r) <==> Present(e)
    ensures Addr(r) == Addr(e) && r % 4 == e % 4 && r / 8 == e / 8
    ensures if Present(e) then r / 4 % 2 == 1 else r == e
  {
    UserBit(e);
    if !Present(e) || e / 4 % 2 == 1 then e else e + 4
  }

  lemma UserBit(e: nat)
    ensures (e + 4) % 2 == e % 2 && (e + 4) % 4 == e % 4
    ensures e / 4 % 2 == 0 ==> (e + 4) / 8 == e / 8 && (e + 4) / 4 % 2 == 1
    ensures e / 4 % 2 == 0 ==> (e + 4) - (e + 4) % PAGE == e - e % PAGE
  {
    if e / 4 % 2 == 0 { SameFrame(e); }
  }

  /** Without the user bit there is room for it below the frame's address. */
  lemma SameFrame(e: nat)
    requires e / 4 % 2 == 0
    ensures (e + 4) - (e + 4) % PAGE == e - e % PAGE
  {
    var k, low := e / 8, e % 8;
    assert low < 4 by { Eights(k, low); }
    var n, m := k / 512, k % 512;
    assert e == n * PAGE + (8 * m + low);
    EntryParts(n, 8 * m + low);
    EntryParts(n, 8 * m + low + 4);
  }

  lemma Eights(k: nat, low: nat)
    requires low < 8 && (8 * k + low) / 4 % 2 == 0
    ensures low < 4
  {
  }

  /** The new root: the current root's entries, the lower half open to user code. */
  function UserRoot(mem: Memory, cur: nat): (t: seq<nat>)
    ensures |t| == SLOTS
  {
    seq(SLOTS, i requires 0 <= i < SLOTS => if i < LOWER then UserEntry(Word(mem, cur, i)) else Word(mem, cur, i))
  }

  /** create_user_pml4; 0 when there is no frame. */
  function CreateUser(pool: Pool, s: Frames, cur: nat): (Frames, nat) {
    var (s1, n) := Alloc(pool, s);
    if n == 0 then (s1, 0) else (Frames(s1.mem[n := UserRoot(s1.mem, cur)], s1.free, s1.next), n)
  }

  /** The new space reaches through its root just what the current one reaches. */
  ghost predicate SharesAll(mem: Memory, n: nat, cur: nat) {
    forall q :: q != [] && |q| <= LEVELS && Slotted(q) ==> Reach(mem, n, q) == Reach(mem, cur, q)
  }

  lemma {:induction false} CopyReach(mem: Memory, n: nat, cur: nat, q: Path)
    requires forall i :: 0 <= i < SLOTS ==> SameEntry(Word(mem, n, i), Word(mem, cur, i))
    requires q != [] && |q| <= LEVELS && Slotted(q)
    ensures Reach(mem, n, q) == Reach(mem, cur, q)
    decreases |q|
  {
    hide Reach, Word, Addr, Present;
    var q', j := q[..|q| - 1], q[|q| - 1];
    assert q == q' + [j];
    if q' == [] {
      RootReached(mem, n);
      RootReached(mem, cur);
      ReachStep(mem, n, [], j);
      ReachStep(mem, cur, [], j);
    } else {
      CopyReach(mem, n, cur, q');
      NextReach(mem, n, cur, q', j);
    }
  }

  lemma NextReach(mem: Memory, n: nat, cur: nat, p: Path, i: nat)
    requires Reach(mem, n, p) == Reach(mem, cur, p)
    ensures Reach(mem, n, p + [i]) == Reach(mem, cur, p + [i])
  {
    assert (p + [i])[..|p|] == p && (p + [i])[|p|] == i;
  }

  predicate SameEntry(e: nat, e': nat) {
    (Present(e) <==> Present(e')) && Addr(e) == Addr(e')
  }

  lemma CopyWords(mem: Memory, mem1: Memory, n: nat, cur: nat)
    requires n != cur && mem1 == mem[n := UserRoot(mem, cur)]
    ensures forall i :: 0 <= i < SLOTS ==> SameEntry(Word(mem1, n, i), Word(mem1, cur, i))
    ensures forall i :: 0 <= i < SLOTS ==>
              Word(mem1, n, i) == if i < LOWER then UserEntry(Word(mem, cur, i)) else Word(mem, cur, i)
  {
    forall i | 0 <= i < SLOTS
      ensures SameEntry(Word(mem1, n, i), Word(mem1, cur, i))
      ensures Word(mem1, n, i) == if i < LOWER then UserEntry(Word(mem, cur, i)) else Word(mem, cur, i)
    {
      assert Word(mem1, cur, i) == Word(mem, cur, i);
      assert UserRoot(mem, cur)[i] == if i < LOWER then UserEntry(Word(mem, cur, i)) else Word(mem, cur, i);
    }
  }

  /** create_user_pml4 gives a root with exactly the current translations, lower half included: the new
      space shares every table below the root with the current one, which itself is unchanged. */
  lemma CreateShares(pool: Pool, s: Frames, cur: nat)
    requires Space(pool, s, cur) && CreateUser(pool, s, cur).1 != 0
    ensures var (s', n) := CreateUser(pool, s, cur);
            && Space(pool, s', cur) && SameReach(s.mem, s'.mem, cur) && SamePages(s.mem, s'.mem, cur)
            && (forall i :: 0 <= i < SLOTS ==>
                              Word(s'.mem, n, i) == if i < LOWER then UserEntry(Word(s.mem, cur, i)) else Word(s.mem, cur, i))
            && SharesAll(s'.mem, n, cur) && !IsReached(s.mem, cur, n) && PoolFrame(pool, n) && !Taken(pool, s, n)
            && (forall g: nat :: g % PAGE == 0 ==> (Taken(pool, s', g) <==> Taken(pool, s, g) || g == n))
  {
    hide Reach, Good, Out, Tree, Held, UserRoot, Alloc;
    AllocFresh(pool, s);
    TablesTaken(pool, s, cur);
    RootReached(s.mem, cur);
    assert IsReached(s.mem, cur, cur);
    var (s1, n) := Alloc(pool, s);
    var s' := CreateUser(pool, s, cur).0;
    SameWalk(s.mem, s'.mem, cur);
    CopyWords(s1.mem, s'.mem, n, cur);
    forall q | q != [] && |q| <= LEVELS && Slotted(q)
      ensures Reach(s'.mem, n, q) == Reach(s'.mem, cur, q)
    {
      CopyReach(s'.mem, n, cur, q);
    }
    CreateSpace(pool, s, s1, s', cur, n);
  }

  lemma CreateSpace(pool: Pool, s: Frames, s1: Frames, s': Frames, cur: nat, n: nat)
    requires Space(pool, s, cur) && Good(pool, s1) && PoolFrame(pool, n)
    requires s1.mem == s.mem[n := Blank()] && s' == Frames(s1.mem[n := UserRoot(s1.mem, cur)], s1.free, s1.next)
    requires SameReach(s.mem, s'.mem, cur)
    requires forall g: nat :: g % PAGE == 0 ==> (Taken(pool, s1, g) <==> Taken(pool, s, g) || g == n)
    ensures Space(pool, s', cur)
    ensures forall g: nat :: g % PAGE == 0 ==> (Taken(pool, s', g) <==> Taken(pool, s, g) || g == n)
  {
    hide Reach, UserRoot;
    assert forall g: nat :: Taken(pool, s', g) <==> Taken(pool, s1, g);
    hide Taken;
  }

  // ---- A teardown on shared tables ----

  /** Words stay as they are or become entries that are not present, the free list keeps what it has, and
      its frames are page aligned: what holds of any teardown, exclusive or not. */
  ghost predicate Fading(s: Frames, s': Frames) {
    && (forall f, j :: Word(s'.mem, f, j) == Word(s.mem, f, j) || !Present(Word(s'.mem, f, j)))
    && (forall f :: f in s.free ==> f in s'.free)
    && Aligned(s'.free)
  }

  predicate Aligned(free: seq<nat>) {
    forall f :: f in free ==> f % PAGE == 0
  }

  lemma AlignedFaded(s: Frames, s': Frames)
    requires Fading(s, s')
    ensures Aligned(s'.free)
  {
  }

  lemma FadingSelf(s: Frames)
    requires Aligned(s.free)
    ensures Fading(s, s)
  {
  }

  lemma FadingOn(s: Frames, s1: Frames, s2: Frames)
    requires Fading(s, s1) && Fading(s1, s2)
    ensures Fading(s, s2)
  {
    hide Word, Present;
  }

  lemma EntryFades(s: Frames, t: nat, i: nat)
    requires Aligned(s.free)
    ensures Fading(s, Frames(SetWord(s.mem, t, i, 0), s.free, s.next))
  {
    SetWordAt(s.mem, t, i, 0);
    hide SetWord, Word;
  }

  lemma ReleaseFades(pool: Pool, s: Frames, f: nat)
    requires Aligned(s.free) && f % PAGE == 0
    ensures Fading(s, Release(pool, s, f))
    ensures InPool(pool, f) && f != 0 ==> f in Release(pool, s, f).free
  {
    SetWordAt(s.mem, f, 0, HeadOf(s.free));
    EvenHead(s.free);
    hide SetWord, Word;
  }

  lemma EvenHead(free: seq<nat>)
    requires Aligned(free)
    ensures !Present(HeadOf(free))
  {
    if free != [] { assert free[0] in free; }
  }

  /** One entry of a teardown. */
  lemma ClearOneFades(pool: Pool, s: Frames, t: nat, level: nat, n: nat)
    requires Aligned(s.free) && n > 0 && level > 0 && Fading(s, ClearEntries(pool, s, t, level, n - 1))
    requires var s1 := ClearEntries(pool, s, t, level, n - 1);
             level > 1 ==> Fading(s1, ClearEntries(pool, s1, Addr(Word(s1.mem, t, n - 1)), level - 1, SLOTS))
    ensures Fading(ClearEntries(pool, s, t, level, n - 1), ClearEntries(pool, s, t, level, n))
  {
    hide *;
    var s1 := ClearEntries(pool, s, t, level, n - 1);
    var e := Word(s1.mem, t, n - 1);
    ClearNext(pool, s, t, level, n);
    AlignedFaded(s, s1);
    FadingSelf(s1);
    if Present(e) {
      if level == 1 {
        EntryFades(s1, t, n - 1);
        ReleaseFades(pool, Frames(SetWord(s1.mem, t, n - 1, 0), s1.free, s1.next), Addr(e));
        FadingOn(s1, Frames(SetWord(s1.mem, t, n - 1, 0), s1.free, s1.next), ClearEntries(pool, s, t, level, n));
      } else {
        var s2 := ClearEntries(pool, s1, Addr(e), level - 1, SLOTS);
        AlignedFaded(s1, s2);
        ReleaseFades(pool, s2, Addr(e));
        AlignedFaded(s2, Release(pool, s2, Addr(e)));
        FadingOn(s1, s2, Release(pool, s2, Addr(e)));
        EntryFades(Release(pool, s2, Addr(e)), t, n - 1);
        FadingOn(s1, Release(pool, s2, Addr(e)), ClearEntries(pool, s, t, level, n));
      }
    }
  }

  lemma {:induction false} ClearFades(pool: Pool, s: Frames, t: nat, level: nat, n: nat)
    requires Aligned(s.free)
    ensures Fading(s, ClearEntries(pool, s, t, level, n))
    decreases level, n
  {
    if n > 0 && level > 0 {
      hide ClearEntries;
      ClearFades(pool, s, t, level, n - 1);
      var s1 := ClearEntries(pool, s, t, level, n - 1);
      if level > 1 { ClearFades(pool, s1, Addr(Word(s1.mem, t, n - 1)), level - 1, SLOTS); }
      ClearOneFades(pool, s, t, level, n);
      FadingOn(s, ClearEntries(pool, s, t, level, n - 1), ClearEntries(pool, s, t, level, n));
    }
  }

  /** What clearing the first `k` entries released is still there after `n`. */
  lemma {:induction false} ClearGrows(pool: Pool, s: Frames, t: nat, level: nat, k: nat, n: nat)
    requires Aligned(s.free) && level > 0 && k <= n
    ensures Fading(ClearEntries(pool, s, t, level, k), ClearEntries(pool, s, t, level, n))
    decreases n
  {
    hide ClearEntries;
    ClearFades(pool, s, t, level, k);
    if k < n {
      ClearGrows(pool, s, t, level, k, n - 1);
      ClearFades(pool, s, t, level, n - 1);
      var s1 := ClearEntries(pool, s, t, level, n - 1);
      if level > 1 { ClearFades(pool, s1, Addr(Word(s1.mem, t, n - 1)), level - 1, SLOTS); }
      ClearOneFades(pool, s, t, level, n);
      FadingOn(ClearEntries(pool, s, t, level, k), ClearEntries(pool, s, t, level, n - 1), ClearEntries(pool, s, t, level, n));
    }
  }

  /** No walk of fewer than `level` steps from `t` ends in frame `x`. */
  ghost predicate Avoids(mem: Memory, t: nat, level: nat, x: nat) {
    forall q :: |q| < level && Slotted(q) ==> Reach(mem, t, q) != Some(x)
  }

  lemma {:induction false} FadedReach(s: Frames, s': Frames, t: nat, q: Path)
    requires Fading(s, s') && Reach(s'.mem, t, q).Some?
    ensures Reach(s.mem, t, q) == Reach(s'.mem, t, q)
    decreases |q|
  {
    if q != [] { FadedReach(s, s', t, q[..|q| - 1]); }
  }

  lemma AvoidsFaded(s: Frames, s': Frames, t: nat, level: nat, x: nat)
    requires Fading(s, s') && Avoids(s.mem, t, level, x)
    ensures Avoids(s'.mem, t, level, x)
  {
    hide Reach, Fading;
    forall q | |q| < level && Slotted(q) && Reach(s'.mem, t, q) == Some(x)
      ensures false
    {
      FadedReach(s, s', t, q);
    }
  }

  /** A walk that starts with entry `i` of `t`. */
  lemma {:induction false} ReachFrom(mem: Memory, t: nat, i: nat, q: Path)
    requires Present(Word(mem, t, i))
    ensures Reach(mem, t, [i] + q) == Reach(mem, Addr(Word(mem, t, i)), q)
    decreases |q|
  {
    if q == [] {
      assert [i] + q == [] + [i];
      ReachStep(mem, t, [], i);
    } else {
      var q', j := q[..|q| - 1], q[|q| - 1];
      ReachFrom(mem, t, i, q');
      assert ([i] + q)[..|q|] == [i] + q' && ([i] + q)[|q|] == j;
    }
  }

  lemma AvoidsChild(mem: Memory, t: nat, level: nat, i: nat, x: nat)
    requires level > 1 && i < SLOTS && Present(Word(mem, t, i))
    requires forall q :: q != [] && |q| < level && Slotted(q) ==> Reach(mem, t, q) != Some(x)
    ensures Avoids(mem, Addr(Word(mem, t, i)), level - 1, x)
  {
    hide Reach, Word, Addr;
    forall q | |q| < level - 1 && Slotted(q)
      ensures Reach(mem, Addr(Word(mem, t, i)), q) != Some(x)
    {
      ReachFrom(mem, t, i, q);
      assert Slotted([i] + q);
    }
  }

  /** Frame `x` keeps its words, but for the first one when the free list has taken the frame. */
  ghost predicate Spared(s: Frames, s': Frames, x: nat) {
    forall j :: Word(s'.mem, x, j) == Word(s.mem, x, j) || (j == 0 && x in s'.free)
  }

  lemma ReleaseSpares(pool: Pool, s: Frames, f: nat, x: nat)
    ensures Spared(s, Release(pool, s, f), x)
  {
    SetWordAt(s.mem, f, 0, HeadOf(s.free));
    hide SetWord, Word;
  }

  lemma EntrySpares(s: Frames, t: nat, i: nat, x: nat)
    requires x != t
    ensures Spared(s, Frames(SetWord(s.mem, t, i, 0), s.free, s.next), x)
  {
    SetWordAt(s.mem, t, i, 0);
    hide SetWord, Word;
  }

  lemma SparedOn(s: Frames, s1: Frames, s2: Frames, x: nat)
    requires Spared(s, s1, x) && Spared(s1, s2, x) && forall f :: f in s1.free ==> f in s2.free
    ensures Spared(s, s2, x)
  {
    hide Word;
  }

  /** A teardown spares the frames it does not walk through as tables. */
  lemma {:induction false} ClearSpares(pool: Pool, s: Frames, t: nat, level: nat, n: nat, x: nat)
    requires Aligned(s.free) && n <= SLOTS && Avoids(s.mem, t, level, x)
    ensures Spared(s, ClearEntries(pool, s, t, level, n), x)
    decreases level, n
  {
    hide *;
    if n == 0 || level == 0 {
      NoneSpared(pool, s, t, level, n, x);
    } else {
      ClearSpares(pool, s, t, level, n - 1, x);
      var s1 := ClearEntries(pool, s, t, level, n - 1);
      StillAvoids(pool, s, t, level, n - 1, x);
      if level > 1 && Present(Word(s1.mem, t, n - 1)) {
        AvoidsBelow(s1.mem, t, level, n - 1, x);
        ClearSpares(pool, s1, Addr(Word(s1.mem, t, n - 1)), level - 1, SLOTS, x);
      }
      ClearOneSpares(pool, s, s1, t, level, n, x);
    }
  }

  lemma NoneSpared(pool: Pool, s: Frames, t: nat, level: nat, n: nat, x: nat)
    requires n == 0 || level == 0
    ensures Spared(s, ClearEntries(pool, s, t, level, n), x)
  {
  }

  lemma StillAvoids(pool: Pool, s: Frames, t: nat, level: nat, n: nat, x: nat)
    requires Aligned(s.free) && level > 0 && Avoids(s.mem, t, level, x)
    ensures var s1 := ClearEntries(pool, s, t, level, n);
            x != t && Aligned(s1.free) && Avoids(s1.mem, t, level, x)
  {
    hide *;
    ClearFades(pool, s, t, level, n);
    var s1 := ClearEntries(pool, s, t, level, n);
    AlignedFaded(s, s1);
    AvoidsFaded(s, s1, t, level, x);
    AvoidsSelf(s.mem, t, level, x);
  }

  lemma AvoidsBelow(mem: Memory, t: nat, level: nat, i: nat, x: nat)
    requires level > 1 && i < SLOTS && Present(Word(mem, t, i)) && Avoids(mem, t, level, x)
    ensures Avoids(mem, Addr(Word(mem, t, i)), level - 1, x)
  {
    hide Reach, Word, Addr;
    AvoidsChild(mem, t, level, i, x);
  }

  lemma AvoidsSelf(mem: Memory, t: nat, level: nat, x: nat)
    requires Avoids(mem, t, level, x) && level > 0
    ensures x != t
  {
    RootReached(mem, t);
    assert Slotted([]);
  }

  lemma ClearOneSpares(pool: Pool, s: Frames, s1: Frames, t: nat, level: nat, n: nat, x: nat)
    requires Aligned(s1.free) && n > 0 && level > 0 && x != t
    requires s1 == ClearEntries(pool, s, t, level, n - 1) && Spared(s, s1, x)
    requires level > 1 && Present(Word(s1.mem, t, n - 1)) ==> Spared(s1, ClearEntries(pool, s1, Addr(Word(s1.mem, t, n - 1)), level - 1, SLOTS), x)
    ensures Spared(s, ClearEntries(pool, s, t, level, n), x)
  {
    ClearNext(pool, s, t, level, n);
    hide ClearEntries, Word, SetWord, Release, Spared, Addr;
    var c := Addr(Word(s1.mem, t, n - 1));
    if !Present(Word(s1.mem, t, n - 1)) {
    } else if level == 1 {
      var s2 := Frames(SetWord(s1.mem, t, n - 1, 0), s1.free, s1.next);
      EntrySpares(s1, t, n - 1, x);
      SparedOn(s, s1, s2, x);
      ReleaseSpares(pool, s2, c, x);
      ReleaseFades(pool, s2, c);
      SparedOn(s, s2, Release(pool, s2, c), x);
    } else {
      var s2 := ClearEntries(pool, s1, c, level - 1, SLOTS);
      ClearFades(pool, s1, c, level - 1, SLOTS);
      SparedOn(s, s1, s2, x);
      ReleaseSpares(pool, s2, c, x);
      ReleaseFades(pool, s2, c);
      SparedOn(s, s2, Release(pool, s2, c), x);
      EntrySpares(Release(pool, s2, c), t, n - 1, x);
      SparedOn(s, Release(pool, s2, c), ClearEntries(pool, s, t, level, n), x);
    }
  }

  /** No walk from `t` leads back to it. */
  ghost predicate NoReturn(mem: Memory, t: nat) {
    forall q :: q != [] && |q| < LEVELS && Slotted(q) ==> Reach(mem, t, q) != Some(t)
  }

  lemma NoReturnFaded(s: Frames, s': Frames, t: nat)
    requires Fading(s, s') && NoReturn(s.mem, t)
    ensures NoReturn(s'.mem, t)
  {
    hide Reach, Fading;
    forall q | q != [] && |q| < LEVELS && Slotted(q) && Reach(s'.mem, t, q) == Some(t)
      ensures false
    {
      FadedReach(s, s', t, q);
    }
  }

  /** A root no walk leads back to still has its later entries when its first `n` are cleared. */
  lemma {:induction false} RootWords(pool: Pool, s: Frames, t: nat, n: nat, j: nat)
    requires Aligned(s.free) && n <= j < SLOTS && NoReturn(s.mem, t)
    ensures Word(ClearEntries(pool, s, t, LEVELS, n).mem, t, j) == Word(s.mem, t, j)
    decreases n
  {
    hide *;
    if n == 0 {
      ClearNone(pool, s, t);
    } else {
      RootWords(pool, s, t, n - 1, j);
      StillNoReturn(pool, s, t, n - 1);
      RootWord(pool, s, ClearEntries(pool, s, t, LEVELS, n - 1), t, n, j);
    }
  }

  lemma StillNoReturn(pool: Pool, s: Frames, t: nat, n: nat)
    requires Aligned(s.free) && NoReturn(s.mem, t)
    ensures var s1 := ClearEntries(pool, s, t, LEVELS, n); Aligned(s1.free) && NoReturn(s1.mem, t)
  {
    hide *;
    ClearFades(pool, s, t, LEVELS, n);
    AlignedFaded(s, ClearEntries(pool, s, t, LEVELS, n));
    NoReturnFaded(s, ClearEntries(pool, s, t, LEVELS, n), t);
  }

  lemma ClearNone(pool: Pool, s: Frames, t: nat)
    ensures ClearEntries(pool, s, t, LEVELS, 0) == s
  {
  }

  lemma RootWord(pool: Pool, s: Frames, s1: Frames, t: nat, n: nat, j: nat)
    requires 0 < n <= j < SLOTS && s1 == ClearEntries(pool, s, t, LEVELS, n - 1)
    requires Aligned(s1.free) && NoReturn(s1.mem, t)
    ensures Word(ClearEntries(pool, s, t, LEVELS, n).mem, t, j) == Word(s1.mem, t, j)
  {
    ClearNext(pool, s, t, LEVELS, n);
    hide ClearEntries, Reach, Word, Addr, SetWord, Release, Spared;
    if Present(Word(s1.mem, t, n - 1)) {
      AvoidsChild(s1.mem, t, LEVELS, n - 1, t);
      var c := Addr(Word(s1.mem, t, n - 1));
      ClearSpares(pool, s1, c, LEVELS - 1, SLOTS, t);
      RootEntry(pool, s1, ClearEntries(pool, s1, c, LEVELS - 1, SLOTS), t, n - 1, j, c);
    }
  }

  lemma RootEntry(pool: Pool, s1: Frames, s2: Frames, t: nat, i: nat, j: nat, c: nat)
    requires Spared(s1, s2, t) && i < j
    ensures Word(SetWord(Release(pool, s2, c).mem, t, i, 0), t, j) == Word(s1.mem, t, j)
  {
    ReleaseSpares(pool, s2, c, t);
    SetWordAt(Release(pool, s2, c).mem, t, i, 0);
    hide Release, SetWord, Word;
  }

  /** The table at a lower-half entry of the root is released, whatever else leads to it. */
  lemma EntryFreed(pool: Pool, s: Frames, t: nat, i: nat)
    requires Aligned(s.free) && GoodPool(pool) && i < LOWER
    requires Present(Word(s.mem, t, i)) && InPool(pool, Addr(Word(s.mem, t, i)))
    requires NoReturn(s.mem, t)
    ensures Addr(Word(s.mem, t, i)) in ClearEntries(pool, s, t, LEVELS, LOWER).free
  {
    hide ClearEntries, Reach, Word, Release, SetWord, Addr;
    RootWords(pool, s, t, i, i);
    ClearNone(pool, s, t);
    var s1, f := ClearEntries(pool, s, t, LEVELS, i), Addr(Word(s.mem, t, i));
    ClearFades(pool, s, t, LEVELS, i);
    ClearNext(pool, s, t, LEVELS, i + 1);
    ClearFades(pool, s1, f, LEVELS - 1, SLOTS);
    ReleaseFades(pool, ClearEntries(pool, s1, f, LEVELS - 1, SLOTS), f);
    ClearGrows(pool, s, t, LEVELS, i + 1, LOWER);
  }

  /** The two roots after create_user_pml4: no walk from either leads back to it, or from one to the other. */
  lemma RootsApart(pool: Pool, s: Frames, s': Frames, cur: nat, n: nat)
    requires Space(pool, s', cur) && SameReach(s.mem, s'.mem, cur) && SharesAll(s'.mem, n, cur)
    requires !IsReached(s.mem, cur, n)
    ensures n != cur && Avoids(s'.mem, n, LEVELS, cur)
    ensures NoReturn(s'.mem, n)
  {
    SpaceTree(pool, s', cur);
    RootReached(s'.mem, cur);
    RootReached(s.mem, cur);
    RootReached(s'.mem, n);
    hide Reach, Tree, Held, Good;
    assert TablePath([]) && IsReached(s.mem, cur, cur);
    forall q | |q| < LEVELS && Slotted(q)
      ensures Reach(s'.mem, n, q) != Some(cur)
      ensures q != [] ==> Reach(s'.mem, n, q) != Some(n)
    {
      assert TablePath(q);
      if q != [] && Reach(s'.mem, cur, q) == Some(cur) { OneWay(s'.mem, cur, q, []); }
    }
  }

  lemma SharedFreed(pool: Pool, s: Frames, s': Frames, cur: nat, n: nat, i: nat)
    requires Space(pool, s', cur) && SameReach(s.mem, s'.mem, cur) && SharesAll(s'.mem, n, cur)
    requires !IsReached(s.mem, cur, n) && n != 0 && n % PAGE == 0 && i < LOWER
    requires Reach(s.mem, cur, [i]).Some? && InPool(pool, Reach(s.mem, cur, [i]).value)
    ensures !Held(pool, Destroy(pool, s', n), cur)
  {
    assert LOWER <= SLOTS;
    hide *;
    var f := Reach(s.mem, cur, [i]).value;
    RootsApart(pool, s, s', cur, n);
    FirstStep(s'.mem, n, i);
    FirstStep(s'.mem, cur, i);
    Shared(s.mem, s'.mem, cur, n, i);
    SpaceAligned(pool, s', cur);
    EntryFreed(pool, s', n, i);
    ClearSpares(pool, s', n, LEVELS, LOWER, cur);
    ClearFades(pool, s', n, LEVELS, LOWER);
    NotHeld(pool, s', cur, n, i, f);
  }

  lemma FirstStep(mem: Memory, root: nat, i: nat)
    ensures Reach(mem, root, [i]).Some? <==> Present(Word(mem, root, i))
    ensures Present(Word(mem, root, i)) ==> Reach(mem, root, [i]) == Some(Addr(Word(mem, root, i)))
  {
    assert [i] == [] + [i];
    ReachStep(mem, root, [], i);
  }

  lemma Shared(mem: Memory, mem': Memory, cur: nat, n: nat, i: nat)
    requires SameReach(mem, mem', cur) && SharesAll(mem', n, cur) && i < LOWER
    ensures Reach(mem', n, [i]) == Reach(mem', cur, [i]) == Reach(mem, cur, [i])
  {
    hide Reach;
    assert TablePath([i]) && Slotted([i]);
  }

  lemma SpaceAligned(pool: Pool, s: Frames, cur: nat)
    requires Space(pool, s, cur)
    ensures Aligned(s.free) && GoodPool(pool)
  {
  }

  /** Either the root itself is on the free list now, or it still leads to a table that is. */
  lemma NotHeld(pool: Pool, s: Frames, cur: nat, n: nat, i: nat, f: nat)
    requires n != 0 && n % PAGE == 0 && i < LOWER && Present(Word(s.mem, cur, i)) && f == Addr(Word(s.mem, cur, i))
    requires var s1 := ClearEntries(pool, s, n, LEVELS, LOWER); Spared(s, s1, cur) && Fading(s, s1) && f in s1.free
    ensures !Held(pool, Destroy(pool, s, n), cur)
  {
    hide ClearEntries, Word, Reach, Addr, Fading;
    var s1, s2 := ClearEntries(pool, s, n, LEVELS, LOWER), Destroy(pool, s, n);
    AlignedFaded(s, s1);
    ReleaseFades(pool, s1, n);
    ReleaseSpares(pool, s1, n, cur);
    FreeStays(s1, s2, f);
    SparedFreed(s, s1, s2, cur);
    RootReached(s2.mem, cur);
    FirstStep(s2.mem, cur, i);
    assert TablePath([]) && TablePath([i]);
  }

  lemma FreeStays(s: Frames, s': Frames, f: nat)
    requires Fading(s, s') && f in s.free
    ensures f in s'.free
  {
  }

  lemma SparedFreed(s: Frames, s1: Frames, s2: Frames, x: nat)
    requires Spared(s, s1, x) && Spared(s1, s2, x) && Fading(s1, s2)
    ensures x in s2.free || forall j :: Word(s2.mem, x, j) == Word(s.mem, x, j)
  {
    hide Word;
  }

  lemma NotReachedNew(mem: Memory, mem': Memory, cur: nat, n: nat)
    requires SameReach(mem, mem', cur) && !IsReached(mem, cur, n)
    ensures forall f :: IsReached(mem', cur, f) ==> f != n
  {
    hide Reach;
  }

  lemma EmptyLower(pool: Pool, mem: Memory, cur: nat)
    requires forall i :: 0 <= i < LOWER ==> Reach(mem, cur, [i]) == None
    ensures Exclusive(pool, mem, cur) && forall f :: !IsLower(pool, mem, cur, f)
  {
    forall q, f | Beyond(q, [], LOWER) && Ends(pool, mem, cur, q, f)
      ensures false
    {
      assert q[..1] == [q[0]];
      ReachAlong(mem, cur, q, 1);
    }
  }

  /** A root without lower-half entries is an owner of nothing but itself. */
  lemma EmptyOwner(pool: Pool, s: Frames, s': Frames, cur: nat, n: nat)
    requires Space(pool, s', cur) && SameReach(s.mem, s'.mem, cur) && SharesAll(s'.mem, n, cur)
    requires forall i :: 0 <= i < LOWER ==> Reach(s.mem, cur, [i]) == None
    requires n != 0 && n % PAGE == 0 && Taken(pool, s', n)
    ensures Owner(pool, s', n) && forall f :: !IsLower(pool, s'.mem, n, f)
  {
    hide Reach, Taken, Good, SameReach, SharesAll;
    forall i | 0 <= i < LOWER
      ensures Reach(s'.mem, n, [i]) == None
    {
      Shared(s.mem, s'.mem, cur, n, i);
    }
    EmptyLower(pool, s'.mem, n);
  }

  /** Tearing down a space straight after creating it is safe for the space it was copied from exactly
      when that space has no table in its lower half: otherwise the shared tables land on the free list
      while the current root still leads to them. The lower half may map any frames, its own tables and
      root among them, as the identity mapping of init_paging does. */
  lemma CreateThenDestroy(pool: Pool, s: Frames, cur: nat)
    requires Space(pool, s, cur) && CreateUser(pool, s, cur).1 != 0
    requires forall i :: 0 <= i < LOWER && Reach(s.mem, cur, [i]).Some? ==> InPool(pool, Reach(s.mem, cur, [i]).value)
    ensures var (s', n) := CreateUser(pool, s, cur);
            var s'' := Destroy(pool, s', n);
            Held(pool, s'', cur) <==> forall i :: 0 <= i < LOWER ==> Reach(s.mem, cur, [i]) == None
  {
    hide CreateUser, Destroy, Reach, Taken, Good, Owner, SamePages, SameReach, SharesAll;
    CreateShares(pool, s, cur);
    var (s', n) := CreateUser(pool, s, cur);
    if i :| 0 <= i < LOWER && Reach(s.mem, cur, [i]).Some? {
      SharedFreed(pool, s, s', cur, n, i);
    } else {
      EmptyOwner(pool, s, s', cur, n);
      NotReachedNew(s.mem, s'.mem, cur, n);
      DestroySparesOthers(pool, s', n, cur);
    }
  }
}
