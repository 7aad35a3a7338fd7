/** The four-level page tables as a map from pages to entries. */
module PageTables {
  import opened Options
  import opened PhysFrames

  const LINK_FLAGS: nat := 7
  const PRESENT: nat := 1

  /** The indices followed from the root: three to a page table, four to a page. */
  type Path = seq<nat>

  predicate Slotted(p: Path) {
    forall i :: 0 <= i < |p| ==> p[i] < SLOTS
  }

  predicate TablePath(p: Path) {
    |p| <= 3 && Slotted(p)
  }

  predicate PagePath(p: Path) {
    |p| == 4 && Slotted(p)
  }

  /** The page a 48-bit virtual address lies in. */
  function PageOf(vaddr: nat): (p: Path)
    ensures PagePath(p)
  {
    [vaddr / 0x80_0000_0000 % SLOTS, vaddr / 0x4000_0000 % SLOTS, vaddr / 0x20_0000 % SLOTS, vaddr / 0x1000 % SLOTS]
  }

  /** The page number back from the indices. */
  function Number(p: Path): nat
    requires |p| == 4
  {
    ((p[0] * SLOTS + p[1]) * SLOTS + p[2]) * SLOTS + p[3]
  }

  lemma NumberOfPage(vaddr: nat)
    requires vaddr < 0x1_0000_0000_0000
    ensures Number(PageOf(vaddr)) == vaddr / PAGE
  {
    var n := vaddr / 0x1000;
    assert vaddr / 0x20_0000 == n / SLOTS;
    assert vaddr / 0x4000_0000 == n / SLOTS / SLOTS;
    assert vaddr / 0x80_0000_0000 == n / SLOTS / SLOTS / SLOTS;
  }

  /** Two 48-bit addresses share all four indices just when they lie in the same page. */
  lemma SamePage(v: nat, w: nat)
    requires v < 0x1_0000_0000_0000 && w < 0x1_0000_0000_0000
    ensures PageOf(v) == PageOf(w) <==> v / PAGE == w / PAGE
  {
    NumberOfPage(v);
    NumberOfPage(w);
    var n := v / PAGE;
    if n == w / PAGE {
      assert forall a: nat | a in {v, w} :: a / 0x20_0000 == n / SLOTS;
      assert forall a: nat | a in {v, w} :: a / 0x4000_0000 == n / SLOTS / SLOTS;
      assert forall a: nat | a in {v, w} :: a / 0x80_0000_0000 == n / SLOTS / SLOTS / SLOTS;
    }
  }

  // ---- Entries ----

  predicate Present(e: nat) {
    e % 2 == PRESENT
  }

  function Addr(e: nat): nat {
    e - e % PAGE
  }

  /** Bitwise or. */
  function Or(a: nat, b: nat): nat
    decreases a + b
  {
    if a == 0 && b == 0 then 0
    else 2 * Or(a / 2, b / 2) + (if a % 2 == 1 || b % 2 == 1 then 1 else 0)
  }

  function Pow2(k: nat): (r: nat)
    ensures r > 0
  {
    if k == 0 then 1 else 2 * Pow2(k - 1)
  }

  lemma {:induction false} OrZero(a: nat)
    ensures Or(a, 0) == a
    decreases a
  {
    if a > 0 { OrZero(a / 2); }
  }

  /** Bits below those of a multiple of 2^k are added to it. */
  lemma {:induction false} OrAdds(c: nat, b: nat, k: nat)
    requires b < Pow2(k)
    ensures Or(c * Pow2(k), b) == c * Pow2(k) + b
    decreases k
  {
    if k == 0 {
      OrZero(c);
    } else {
      var a := c * Pow2(k - 1);
      assert c * Pow2(k) == 2 * a;
      OrAdds(c, b / 2, k - 1);
    }
  }

  /** `paddr` cut to its page, with the flag bits added; flags from 4096 on would change the address. */
  function Entry(paddr: nat, flags: nat): (e: nat)
    ensures flags < PAGE ==> Addr(e) == paddr - paddr % PAGE && e % PAGE == flags
    ensures Present(e) <==> flags % 2 == 1
  {
    OrEntry(paddr, flags);
    Or(paddr - paddr % PAGE, flags)
  }

  lemma OrEntry(paddr: nat, flags: nat)
    ensures Or(paddr - paddr % PAGE, flags) % 2 == flags % 2
    ensures flags < PAGE ==> Or(paddr - paddr % PAGE, flags) == paddr - paddr % PAGE + flags
    ensures flags < PAGE ==> (paddr - paddr % PAGE + flags) % PAGE == flags
  {
    var n := paddr / PAGE;
    assert paddr - paddr % PAGE == n * PAGE;
    hide Or, Pow2;
    EntryParts(n, 0);
    OrBit(n * PAGE, flags);
    PageBits();
    if flags < PAGE {
      EntryParts(n, flags);
      OrAdds(n, flags, 12);
    }
  }

  lemma OrBit(a: nat, b: nat)
    requires a % 2 == 0
    ensures Or(a, b) % 2 == b % 2
  {
    if a > 0 || b > 0 {
      var x := Or(a / 2, b / 2);
      assert Or(a, b) == 2 * x + b % 2;
      hide Or;
      Parity(x, b % 2);
    }
  }

  lemma Parity(x: nat, bit: nat)
    requires bit < 2
    ensures (2 * x + bit) % 2 == bit
  {
  }

  lemma PageBits()
    ensures Pow2(12) == PAGE
  {
    assert Pow2(4) == 16;
    assert Pow2(8) == 256;
  }

  lemma EntryParts(n: nat, flags: nat)
    requires flags < PAGE
    ensures (n * PAGE + flags) % PAGE == flags
    ensures (n * PAGE + flags) % 2 == flags % 2
  {
  }

  // ---- The walk ----

  /** The frame the walk from `root` reaches along `p`, if all entries on the way are present. */
  function Reach(mem: Memory, root: nat, p: Path): Option<nat>
    decreases |p|, 1
  {
    if p == [] then Some(root)
    else
      match EntryAt(mem, root, p)
      case None => None
      case Some(e) => Some(Addr(e))
  }

  /** The present entry at the end of `p`. */
  function EntryAt(mem: Memory, root: nat, p: Path): Option<nat>
    requires p != []
    decreases |p|, 0
  {
    match Reach(mem, root, p[..|p| - 1])
    case None => None
    case Some(t) =>
      var e := Word(mem, t, p[|p| - 1]);
      if Present(e) then Some(e) else None
  }

  /** The translation of a page: its entry, flags included. */
  function Translate(mem: Memory, root: nat, page: Path): Option<nat>
    requires PagePath(page)
  {
    EntryAt(mem, root, page)
  }

  /** The walk of the hardware, entry by entry: nine bits of the address index each level, bit 0 of an entry
      says it is present, and the entry without its low twelve bits is the next table. */
  function HardwareWalk(mem: Memory, root: nat, v: nat): Option<nat> {
    var e4 := Word(mem, root, v / 0x80_0000_0000 % 512);
    if e4 % 2 == 0 then None
    else
      var e3 := Word(mem, e4 - e4 % 4096, v / 0x4000_0000 % 512);
      if e3 % 2 == 0 then None
      else
        var e2 := Word(mem, e3 - e3 % 4096, v / 0x20_0000 % 512);
        if e2 % 2 == 0 then None
        else
          var e1 := Word(mem, e2 - e2 % 4096, v / 0x1000 % 512);
          if e1 % 2 == 0 then None else Some(e1)
  }

  /** Translations are what the hardware finds. */
  lemma TranslatesAsHardware(mem: Memory, root: nat, v: nat)
    ensures Translate(mem, root, PageOf(v)) == HardwareWalk(mem, root, v)
  {
    var p := PageOf(v);
    hide Word, PageOf;
    OneStep(mem, root, p, 0);
    OneStep(mem, root, p, 1);
    OneStep(mem, root, p, 2);
    OneStep(mem, root, p, 3);
    assert p[..4] == p;
    IndexOf(v);
    RootReach(mem, root);
    hide Reach, EntryAt;
  }

  lemma IndexOf(v: nat)
    ensures PageOf(v)[0] == v / 0x80_0000_0000 % 512 && PageOf(v)[1] == v / 0x4000_0000 % 512
    ensures PageOf(v)[2] == v / 0x20_0000 % 512 && PageOf(v)[3] == v / 0x1000 % 512
  {
  }

  lemma OneStep(mem: Memory, root: nat, p: Path, k: nat)
    requires k < |p|
    ensures EntryAt(mem, root, p[..k + 1])
            == match Reach(mem, root, p[..k])
               case None => None
               case Some(t) => if Word(mem, t, p[k]) % 2 == 1 then Some(Word(mem, t, p[k])) else None
    ensures Reach(mem, root, p[..k + 1])
            == match EntryAt(mem, root, p[..k + 1]) case None => None case Some(e) => Some(e - e % 4096)
    ensures p[..0] == []
  {
    assert p[..k + 1][..k] == p[..k];
  }

  /** Tables are real memory, and no table is reached in two ways. */
  ghost predicate Tree(mem: Memory, root: nat) {
    && (forall p :: TablePath(p) && Reach(mem, root, p).Some? ==> IsTable(mem, Reach(mem, root, p).value))
    && (forall p, q ::
          TablePath(p) && TablePath(q) && Reach(mem, root, p).Some? && Reach(mem, root, p) == Reach(mem, root, q)
          ==> p == q)
  }

  predicate IsTable(mem: Memory, f: nat) {
    f in mem && |mem[f]| == SLOTS && f % PAGE == 0
  }

  /** The allocator will not hand out a table of this address space. */
  ghost predicate Held(pool: Pool, s: Frames, root: nat) {
    forall p :: TablePath(p) && Reach(s.mem, root, p).Some? ==> Taken(pool, s, Reach(s.mem, root, p).value)
  }

  ghost predicate IsReached(mem: Memory, root: nat, f: nat) {
    exists p :: TablePath(p) && Reach(mem, root, p) == Some(f)
  }

  // ---- Operations ----

  /** get_or_create_table on entry `i` of table `t`: None when no frame is left. */
  function GetTable(pool: Pool, s: Frames, t: nat, i: nat): (Frames, Option<nat>) {
    var e := Word(s.mem, t, i);
    if Present(e) then (s, Some(Addr(e)))
    else
      var (s', f) := Alloc(pool, s);
      if f == 0 then (s', None)
      else (Frames(SetWord(s'.mem, t, i, f + LINK_FLAGS), s'.free, s'.next), Some(f))
  }

  /** map_page below `root`; the flag says whether it returned 0. */
  function MapPage(pool: Pool, s: Frames, root: nat, page: Path, e: nat): (Frames, bool)
    requires PagePath(page)
  {
    var (s1, pdpt) := GetTable(pool, s, root, page[0]);
    if pdpt == None then (s1, false)
    else
      var (s2, pd) := GetTable(pool, s1, pdpt.value, page[1]);
      if pd == None then (s2, false)
      else
        var (s3, pt) := GetTable(pool, s2, pd.value, page[2]);
        if pt == None then (s3, false)
        else (Frames(SetWord(s3.mem, pt.value, page[3], e), s3.free, s3.next), true)
  }

  /** unmap_page below `root`. */
  function UnmapPage(s: Frames, root: nat, page: Path): (Frames, bool)
    requires PagePath(page)
  {
    if Translate(s.mem, root, page) == None then (s, false)
    else (Frames(SetWord(s.mem, Reach(s.mem, root, page[..3]).value, page[3], 0), s.free, s.next), true)
  }

  // ---- One new table ----

  /** Hooking a zeroed, unreached frame below table `p` adds exactly one path to the walk. */
  lemma {:induction false} HookReach(mem: Memory, mem': Memory, root: nat, p: Path, i: nat, n: nat, q: Path)
    requires Tree(mem, root) && |p| <= 2 && TablePath(p + [i]) && Reach(mem, root, p).Some?
    requires Reach(mem, root, p + [i]) == None
    requires n % PAGE == 0 && n in mem && !IsReached(mem, root, n)
    requires mem' == SetWord(mem[n := Blank()], Reach(mem, root, p).value, i, n + LINK_FLAGS)
    requires |q| <= 4 && Slotted(q)
    ensures Reach(mem', root, q) == if q == p + [i] then Some(n) else Reach(mem, root, q)
    ensures q != [] ==> EntryAt(mem', root, q) == if q == p + [i] then Some(n + LINK_FLAGS) else EntryAt(mem, root, q)
    decreases |q|
  {
    hide Tree, SetWord, Blank, Reach, EntryAt, IsReached;
    if q == [] {
      RootReach(mem, root);
      RootReach(mem', root);
    } else {
      var q', j := q[..|q| - 1], q[|q| - 1];
      assert q == q' + [j];
      HookReach(mem, mem', root, p, i, n, q');
      assert TablePath(q');
      HookWords(mem, mem', root, p, i, n, q', j);
      EntryReach(mem, root, q);
      EntryReach(mem', root, q);
      LinkBits(n);
    }
  }

  lemma RootReach(mem: Memory, root: nat)
    ensures Reach(mem, root, []) == Some(root)
  {
  }

  /** A path reaches the frame its entry names. */
  lemma EntryReach(mem: Memory, root: nat, q: Path)
    requires q != []
    ensures Reach(mem, root, q) == match EntryAt(mem, root, q) case None => None case Some(e) => Some(Addr(e))
  {
  }

  /** One step of the walk after hooking. */
  lemma HookWords(mem: Memory, mem': Memory, root: nat, p: Path, i: nat, n: nat, q: Path, j: nat)
    requires Tree(mem, root) && |p| <= 2 && TablePath(p + [i]) && Reach(mem, root, p).Some?
    requires Reach(mem, root, p + [i]) == None
    requires n % PAGE == 0 && n in mem && !IsReached(mem, root, n)
    requires mem' == SetWord(mem[n := Blank()], Reach(mem, root, p).value, i, n + LINK_FLAGS)
    requires TablePath(q) && j < SLOTS
    requires Reach(mem', root, q) == if q == p + [i] then Some(n) else Reach(mem, root, q)
    ensures EntryAt(mem', root, q + [j]) == if q + [j] == p + [i] then Some(n + LINK_FLAGS) else EntryAt(mem, root, q + [j])
  {
    hide Tree;
    assert (q + [j])[..|q|] == q && (p + [i])[..|p|] == p && TablePath(p);
    var t := Reach(mem, root, p).value;
    TableFacts(mem, root, p, n);
    LinkBits(n);
    if q == p + [i] {
      assert q + [j] != p + [i];
      assert Word(mem', n, j) == 0;
    } else if Reach(mem, root, q).Some? {
      TableFacts(mem, root, q, n);
      if Reach(mem, root, q).value == t {
        OneWay(mem, root, p, q);
      } else {
        assert q != p;
      }
    }
  }

  lemma LinkBits(n: nat)
    requires n % PAGE == 0
    ensures Present(n + LINK_FLAGS) && Addr(n + LINK_FLAGS) == n && (n + LINK_FLAGS) % PAGE == LINK_FLAGS
    ensures OpenToUser(n + LINK_FLAGS)
  {
    FlagBits(n / PAGE);
  }

  lemma FlagBits(k: nat)
    ensures OpenToUser(k * PAGE + 7) && (k * PAGE + 7) % PAGE == 7
  {
    assert k * PAGE + 7 == 8 * (512 * k) + 7;
    LowBits(512 * k);
    EntryParts(k, 7);
  }

  lemma LowBits(m: nat)
    ensures (8 * m + 7) % 2 == 1 && (8 * m + 7) / 2 % 2 == 1 && (8 * m + 7) / 4 % 2 == 1
  {
    assert (8 * m + 7) / 2 == 4 * m + 3 && (8 * m + 7) / 4 == 2 * m + 1;
  }

  lemma TableFacts(mem: Memory, root: nat, p: Path, n: nat)
    requires Tree(mem, root) && TablePath(p) && Reach(mem, root, p).Some? && !IsReached(mem, root, n)
    ensures IsTable(mem, Reach(mem, root, p).value) && Reach(mem, root, p).value != n
  {
  }

  lemma NotAt(mem: Memory, root: nat, p: Path, n: nat)
    requires TablePath(p) && !IsReached(mem, root, n)
    ensures Reach(mem, root, p) != Some(n)
  {
  }

  lemma OneWay(mem: Memory, root: nat, p: Path, q: Path)
    requires Tree(mem, root) && TablePath(p) && TablePath(q)
    requires Reach(mem, root, p).Some? && Reach(mem, root, p) == Reach(mem, root, q)
    ensures p == q
  {
  }

  /** The state of one address space that map_page works in. */
  ghost predicate Space(pool: Pool, s: Frames, root: nat) {
    Good(pool, s) && Tree(s.mem, root) && Held(pool, s, root)
  }

  /** Tables are only added, in frames the allocator had to give and linked present, writable and open to
      user code; frames in use, other than the tables of this space, keep their contents. */
  ghost predicate Extends(pool: Pool, s: Frames, s': Frames, root: nat, page: Path) {
    && (forall q :: TablePath(q) ==> SameOrNew(pool, s, s', root, page, q))
    && (forall f: nat :: PoolFrame(pool, f) && Taken(pool, s', f) && !Taken(pool, s, f) ==> IsReached(s'.mem, root, f))
    && (forall f: nat :: f % PAGE == 0 && Taken(pool, s, f) ==> Taken(pool, s', f))
    && (forall f :: f in s.mem && f % PAGE == 0 && Taken(pool, s, f) && !IsReached(s.mem, root, f)
                    ==> f in s'.mem && s'.mem[f] == s.mem[f])
  }

  predicate SameOrNew(pool: Pool, s: Frames, s': Frames, root: nat, page: Path, q: Path) {
    var was, now := Reach(s.mem, root, q), Reach(s'.mem, root, q);
    && (now == was || (was == None && NewFrame(pool, s, s', now.value) && q <= page))
    && (q != [] ==> SameLink(EntryAt(s.mem, root, q), EntryAt(s'.mem, root, q)))
  }

  /** An entry stays as it was, or a new table is linked with all three flags. */
  predicate SameLink(was: Option<nat>, now: Option<nat>) {
    now == was || (was == None && OpenToUser(now.value))
  }

  /** Bits 0, 1 and 2 are set: present, writable and open to user code. The other flag bits are clear. */
  predicate OpenToUser(e: nat) {
    e % 2 == 1 && e / 2 % 2 == 1 && e / 4 % 2 == 1 && e % 4096 < 8
  }

  ghost predicate SamePages(mem: Memory, mem': Memory, root: nat) {
    forall q :: PagePath(q) ==> Translate(mem', root, q) == Translate(mem, root, q)
  }

  /** The map from pages to entries is updated at `page` and nowhere else. */
  ghost predicate Updated(mem: Memory, mem': Memory, root: nat, page: Path, e: nat) {
    forall q :: PagePath(q) ==>
                  Translate(mem', root, q)
                  == if q == page then (if Present(e) then Some(e) else None) else Translate(mem, root, q)
  }

  /** How many tables map_page has to create. */
  function Missing(mem: Memory, root: nat, page: Path): nat
    requires PagePath(page)
  {
    if Reach(mem, root, page[..1]) == None then 3
    else if Reach(mem, root, page[..2]) == None then 2
    else if Reach(mem, root, page[..3]) == None then 1
    else 0
  }

  predicate NewFrame(pool: Pool, s: Frames, s': Frames, f: nat) {
    PoolFrame(pool, f) && !Taken(pool, s, f) && Taken(pool, s', f)
  }

  /** The walk after hooking frame `n` below `p`. */
  ghost predicate Hooked(mem: Memory, mem': Memory, root: nat, p: Path, i: nat, n: nat) {
    && (forall q :: TablePath(q) ==> Reach(mem', root, q) == if q == p + [i] then Some(n) else Reach(mem, root, q))
    && (forall q :: TablePath(q) && q != [] ==>
                      EntryAt(mem', root, q) == if q == p + [i] then Some(n + LINK_FLAGS) else EntryAt(mem, root, q))
    && (forall q :: PagePath(q) ==> Translate(mem', root, q) == Translate(mem, root, q))
  }

  lemma HookAll(mem: Memory, mem': Memory, root: nat, p: Path, i: nat, n: nat)
    requires Tree(mem, root) && |p| <= 2 && TablePath(p + [i]) && Reach(mem, root, p).Some?
    requires Reach(mem, root, p + [i]) == None
    requires n % PAGE == 0 && n in mem && !IsReached(mem, root, n)
    requires mem' == SetWord(mem[n := Blank()], Reach(mem, root, p).value, i, n + LINK_FLAGS)
    ensures Hooked(mem, mem', root, p, i, n) && Tree(mem', root)
  {
    forall q | TablePath(q)
      ensures Reach(mem', root, q) == if q == p + [i] then Some(n) else Reach(mem, root, q)
      ensures q != [] ==> EntryAt(mem', root, q) == if q == p + [i] then Some(n + LINK_FLAGS) else EntryAt(mem, root, q)
    {
      HookReach(mem, mem', root, p, i, n, q);
    }
    forall q | PagePath(q)
      ensures Translate(mem', root, q) == Translate(mem, root, q)
    {
      HookReach(mem, mem', root, p, i, n, q);
    }
    HookTree(mem, mem', root, p, i, n);
  }

  lemma HookTree(mem: Memory, mem': Memory, root: nat, p: Path, i: nat, n: nat)
    requires Tree(mem, root) && Hooked(mem, mem', root, p, i, n) && !IsReached(mem, root, n)
    requires IsTable(mem', n) && forall f :: IsTable(mem, f) ==> IsTable(mem', f)
    ensures Tree(mem', root)
  {
    hide Reach;
    forall q, q' | TablePath(q) && TablePath(q') && Reach(mem', root, q).Some? && Reach(mem', root, q) == Reach(mem', root, q')
      ensures q == q'
    {
      NotAt(mem, root, q, n);
      NotAt(mem, root, q', n);
      if q != p + [i] && q' != p + [i] {
        OneWay(mem, root, q, q');
      }
    }
  }

  lemma ReachStep(mem: Memory, root: nat, p: Path, i: nat)
    requires Reach(mem, root, p).Some?
    ensures var e := Word(mem, Reach(mem, root, p).value, i);
            Reach(mem, root, p + [i]) == if Present(e) then Some(Addr(e)) else None
  {
    assert (p + [i])[..|p|] == p && (p + [i])[|p|] == i;
  }

  /** Hooking a frame just allocated keeps the address space in order. */
  lemma HookSpace(pool: Pool, s: Frames, s': Frames, root: nat, page: Path, p: Path, i: nat, n: nat)
    requires Space(pool, s, root) && Good(pool, s') && n % PAGE == 0 && PoolFrame(pool, n) && !Taken(pool, s, n)
    requires forall f: nat :: f % PAGE == 0 ==> (Taken(pool, s', f) <==> Taken(pool, s, f) || f == n)
    requires TablePath(p + [i]) && p + [i] <= page && Hooked(s.mem, s'.mem, root, p, i, n) && Tree(s'.mem, root)
    requires TablePath(p) && Reach(s.mem, root, p).Some? && Reach(s.mem, root, p + [i]) == None
    requires s'.mem == SetWord(s.mem[n := Blank()], Reach(s.mem, root, p).value, i, n + LINK_FLAGS)
    ensures Space(pool, s', root) && Extends(pool, s, s', root, page) && SamePages(s.mem, s'.mem, root)
  {
    hide Reach, Taken, Good;
    assert IsReached(s.mem, root, Reach(s.mem, root, p).value);
    forall q | TablePath(q) && Reach(s'.mem, root, q).Some?
      ensures Taken(pool, s', Reach(s'.mem, root, q).value)
    {
    }
    assert TablePath(p + [i]) && IsReached(s'.mem, root, n);
    forall q | TablePath(q)
      ensures SameOrNew(pool, s, s', root, page, q)
    {
      assert q == p + [i] ==> Reach(s'.mem, root, q) == Some(n) && NewFrame(pool, s, s', n);
      if q != [] {
        EntryReach(s.mem, root, q);
        LinkBits(n);
      }
    }
  }

  /** get_or_create_table on an empty entry. */
  lemma CreateTable(pool: Pool, s: Frames, root: nat, page: Path, p: Path, i: nat)
    requires Space(pool, s, root) && |p| <= 2 && TablePath(p + [i]) && p + [i] <= page && Reach(s.mem, root, p).Some?
    requires Reach(s.mem, root, p + [i]) == None
    ensures var (s', r) := GetTable(pool, s, Reach(s.mem, root, p).value, i);
            && Space(pool, s', root) && Extends(pool, s, s', root, page) && SamePages(s.mem, s'.mem, root)
            && (r == None ==> s' == s && Spare(pool, s) == 0)
            && (r.Some? ==> Hooked(s.mem, s'.mem, root, p, i, r.value) && Spare(pool, s') == Spare(pool, s) - 1)
  {
    hide Out, Spare, Blank, Reach, Taken, Space, Extends, SamePages, Hooked, Tree, Alloc, Good, IsReached;
    ReachStep(s.mem, root, p, i);
    assert forall k :: 0 <= k < |p| ==> (p + [i])[k] == p[k];
    SpaceAlloc(pool, s, root, p);
    var (s1, n) := Alloc(pool, s);
    if n != 0 {
      var t := Reach(s.mem, root, p).value;
      var s' := Frames(SetWord(s1.mem, t, i, n + LINK_FLAGS), s1.free, s1.next);
      HookAll(s.mem, s'.mem, root, p, i, n);
      GoodAfterHook(pool, s1, s', t, i, n + LINK_FLAGS);
      TakenAfterHook(pool, s1, s');
      HookSpace(pool, s, s', root, page, p, i, n);
    } else {
      ExtendsSelf(pool, s, root, page);
    }
  }

  /** What alloc_physical_page means to a space with table `p`. */
  lemma SpaceAlloc(pool: Pool, s: Frames, root: nat, p: Path)
    requires Space(pool, s, root) && TablePath(p) && Reach(s.mem, root, p).Some?
    ensures var (s', n) := Alloc(pool, s);
            && Tree(s.mem, root) && IsTable(s.mem, Reach(s.mem, root, p).value)
            && Good(pool, s') && s'.next <= pool.end && s.next <= pool.end
            && (n == 0 ==> s' == s && Spare(pool, s) == 0)
            && (n != 0 ==> && PoolFrame(pool, n) && n % PAGE == 0 && !Taken(pool, s, n) && n in s.mem
                           && !IsReached(s.mem, root, n) && s'.mem == s.mem[n := Blank()]
                           && Spare(pool, s') == Spare(pool, s) - 1
                           && forall f: nat :: f % PAGE == 0 ==> (Taken(pool, s', f) <==> Taken(pool, s, f) || f == n))
  {
    hide Alloc, Spare, Reach;
    AllocFresh(pool, s);
    AllocSpare(pool, s);
  }

  lemma GoodAfterHook(pool: Pool, s: Frames, s': Frames, t: nat, i: nat, w: nat)
    requires Good(pool, s) && s' == Frames(SetWord(s.mem, t, i, w), s.free, s.next)
    ensures Good(pool, s')
  {
  }

  lemma TakenAfterHook(pool: Pool, s: Frames, s': Frames)
    requires s'.free == s.free && s'.next == s.next
    ensures forall f :: Taken(pool, s', f) <==> Taken(pool, s, f)
    ensures s.next <= pool.end ==> Spare(pool, s') == Spare(pool, s)
  {
  }

  lemma ExtendsSelf(pool: Pool, s: Frames, root: nat, page: Path)
    ensures Extends(pool, s, s, root, page) && SamePages(s.mem, s.mem, root)
  {
  }

  /** get_or_create_table, called on a table of the space. */
  lemma GetTableGrows(pool: Pool, s: Frames, root: nat, page: Path, p: Path, i: nat)
    requires Space(pool, s, root) && |p| <= 2 && TablePath(p + [i]) && p + [i] <= page && Reach(s.mem, root, p).Some?
    ensures var (s', r) := GetTable(pool, s, Reach(s.mem, root, p).value, i);
            && Space(pool, s', root) && Extends(pool, s, s', root, page) && SamePages(s.mem, s'.mem, root)
            && (Reach(s.mem, root, p + [i]).Some? ==> r == Reach(s.mem, root, p + [i]) && s' == s)
            && (Reach(s.mem, root, p + [i]) == None ==> (r.Some? <==> Spare(pool, s) > 0))
            && (Reach(s.mem, root, p + [i]) == None && r == None ==> s' == s)
            && (Reach(s.mem, root, p + [i]) == None && r.Some? ==>
                  Hooked(s.mem, s'.mem, root, p, i, r.value) && Spare(pool, s') == Spare(pool, s) - 1)
            && (r.Some? ==> Reach(s'.mem, root, p + [i]) == r)
  {
    hide Extends, SamePages, Spare, Alloc, Reach;
    ReachStep(s.mem, root, p, i);
    if Reach(s.mem, root, p + [i]) == None {
      CreateTable(pool, s, root, page, p, i);
    } else {
      ExtendsSelf(pool, s, root, page);
    }
  }

  // ---- map_page ----

  /** Writing the last-level entry of a page changes no table and no other page. */
  lemma SetEntry(mem: Memory, mem': Memory, root: nat, page: Path, e: nat)
    requires Tree(mem, root) && PagePath(page) && Reach(mem, root, page[..3]).Some?
    requires mem' == SetWord(mem, Reach(mem, root, page[..3]).value, page[3], e)
    ensures Tree(mem', root) && Updated(mem, mem', root, page, e)
    ensures forall q :: TablePath(q) ==> Reach(mem', root, q) == Reach(mem, root, q)
    ensures forall q :: TablePath(q) && q != [] ==> EntryAt(mem', root, q) == EntryAt(mem, root, q)
  {
    forall q | TablePath(q)
      ensures Reach(mem', root, q) == Reach(mem, root, q)
      ensures q != [] ==> EntryAt(mem', root, q) == EntryAt(mem, root, q)
    {
      SetReach(mem, mem', root, page, e, q);
    }
    forall q | PagePath(q)
      ensures Translate(mem', root, q)
              == if q == page then (if Present(e) then Some(e) else None) else Translate(mem, root, q)
    {
      assert TablePath(q[..3]) && TablePath(page[..3]);
      assert q[..3] + [q[3]] == q && page[..3] + [page[3]] == page;
    }
  }

  lemma {:induction false} SetReach(mem: Memory, mem': Memory, root: nat, page: Path, e: nat, q: Path)
    requires Tree(mem, root) && PagePath(page) && Reach(mem, root, page[..3]).Some?
    requires mem' == SetWord(mem, Reach(mem, root, page[..3]).value, page[3], e)
    requires TablePath(q)
    ensures Reach(mem', root, q) == Reach(mem, root, q)
    ensures q != [] ==> EntryAt(mem', root, q) == EntryAt(mem, root, q)
    decreases |q|
  {
    if q != [] {
      var q' := q[..|q| - 1];
      SetReach(mem, mem', root, page, e, q');
      assert TablePath(q') && TablePath(page[..3]) && q' != page[..3];
    }
  }

  lemma StillUnreached(pool: Pool, s: Frames, s': Frames, root: nat, page: Path, f: nat)
    requires Extends(pool, s, s', root, page) && Taken(pool, s, f) && !IsReached(s.mem, root, f)
    ensures !IsReached(s'.mem, root, f)
  {
    hide Reach, Taken;
    if p :| TablePath(p) && Reach(s'.mem, root, p) == Some(f) {
      assert SameOrNew(pool, s, s', root, page, p);
    }
  }

  lemma StillReached(pool: Pool, s: Frames, s': Frames, root: nat, page: Path, f: nat)
    requires Extends(pool, s, s', root, page) && IsReached(s.mem, root, f)
    ensures IsReached(s'.mem, root, f)
  {
    hide Reach, Taken;
    var p :| TablePath(p) && Reach(s.mem, root, p) == Some(f);
    assert SameOrNew(pool, s, s', root, page, p);
  }

  lemma ExtendsOn(pool: Pool, s: Frames, s1: Frames, s2: Frames, root: nat, page: Path)
    requires Extends(pool, s, s1, root, page) && Extends(pool, s1, s2, root, page)
    ensures Extends(pool, s, s2, root, page)
  {
    hide Reach, Taken;
    forall q | TablePath(q)
      ensures SameOrNew(pool, s, s2, root, page, q)
    {
      assert SameOrNew(pool, s, s1, root, page, q) && SameOrNew(pool, s1, s2, root, page, q);
    }
    forall f: nat | PoolFrame(pool, f) && Taken(pool, s2, f) && !Taken(pool, s, f)
      ensures IsReached(s2.mem, root, f)
    {
      if Taken(pool, s1, f) { StillReached(pool, s1, s2, root, page, f); }
    }
    forall f | f in s.mem && f % PAGE == 0 && Taken(pool, s, f) && !IsReached(s.mem, root, f)
      ensures f in s2.mem && s2.mem[f] == s.mem[f]
    {
      StillUnreached(pool, s, s1, root, page, f);
    }
  }

  lemma ReachPrefix(mem: Memory, root: nat, page: Path, k: nat)
    requires k < |page| && Reach(mem, root, page[..k + 1]).Some?
    ensures Reach(mem, root, page[..k]).Some?
  {
    assert page[..k + 1][..k] == page[..k];
  }

  lemma MissingFrom(mem: Memory, root: nat, page: Path, k: nat)
    requires PagePath(page) && k <= 3 && Reach(mem, root, page[..k]).Some?
    requires k == 3 || Reach(mem, root, page[..k + 1]) == None
    ensures Missing(mem, root, page) == 3 - k
  {
    if k == 3 { ReachPrefix(mem, root, page, 2); }
    if k >= 2 { ReachPrefix(mem, root, page, 1); }
  }

  /** One level of the walk: get_or_create_table for index `k` of the page. */
  lemma Descend(pool: Pool, s: Frames, root: nat, page: Path, k: nat)
    requires Space(pool, s, root) && PagePath(page) && k < 3 && Reach(s.mem, root, page[..k]).Some?
    ensures var (s', r) := GetTable(pool, s, Reach(s.mem, root, page[..k]).value, page[k]);
            && Space(pool, s', root) && Extends(pool, s, s', root, page) && SamePages(s.mem, s'.mem, root)
            && (r.Some? ==> Reach(s'.mem, root, page[..k + 1]) == r)
            && (r.Some? <==> Reach(s.mem, root, page[..k + 1]).Some? || Spare(pool, s) > 0)
            && (r.Some? ==> Missing(s.mem, root, page) - Missing(s'.mem, root, page) == Spare(pool, s) - Spare(pool, s'))
            && (Reach(s.mem, root, page[..k + 1]).Some? ==> s' == s)
  {
    hide Space, Extends, SamePages, GetTable, Reach, Missing, Spare;
    assert page[..k] + [page[k]] == page[..k + 1];
    assert TablePath(page[..k + 1]);
    GetTableGrows(pool, s, root, page, page[..k], page[k]);
    var (s', r) := GetTable(pool, s, Reach(s.mem, root, page[..k]).value, page[k]);
    if Reach(s.mem, root, page[..k + 1]) == None && r.Some? {
      MissingFrom(s.mem, root, page, k);
      if k < 2 {
        assert TablePath(page[..k + 2]);
        if Reach(s.mem, root, page[..k + 2]).Some? { ReachPrefix(s.mem, root, page, k + 1); }
      }
      MissingFrom(s'.mem, root, page, k + 1);
    }
  }

  /** Part of the way: from `s` to `s'` the walk created what it needed to reach level `k`. */
  ghost predicate Down(pool: Pool, s: Frames, s': Frames, root: nat, page: Path, k: nat)
    requires PagePath(page) && k <= 3
  {
    && Space(pool, s', root) && Extends(pool, s, s', root, page) && SamePages(s.mem, s'.mem, root)
    && s.next <= pool.end && s'.next <= pool.end
    && Reach(s'.mem, root, page[..k]).Some?
    && Missing(s.mem, root, page) - Missing(s'.mem, root, page) == Spare(pool, s) - Spare(pool, s')
    && (Missing(s.mem, root, page) == 0 ==> s' == s)
  }

  /** The walk stopped for want of a frame. */
  ghost predicate Stuck(pool: Pool, s: Frames, s': Frames, root: nat, page: Path)
    requires PagePath(page)
  {
    && Space(pool, s', root) && Extends(pool, s, s', root, page) && SamePages(s.mem, s'.mem, root)
    && s.next <= pool.end && Missing(s.mem, root, page) > Spare(pool, s)
  }

  lemma DownStep(pool: Pool, s: Frames, s1: Frames, root: nat, page: Path, k: nat)
    requires PagePath(page) && k < 3 && Down(pool, s, s1, root, page, k)
    ensures var (s2, r) := GetTable(pool, s1, Reach(s1.mem, root, page[..k]).value, page[k]);
            if r.Some? then Down(pool, s, s2, root, page, k + 1) && Reach(s2.mem, root, page[..k + 1]) == r
            else Stuck(pool, s, s2, root, page)
  {
    hide Extends, SamePages, GetTable, Reach, Missing, Spare;
    var (s2, r) := GetTable(pool, s1, Reach(s1.mem, root, page[..k]).value, page[k]);
    Descend(pool, s1, root, page, k);
    ExtendsOn(pool, s, s1, s2, root, page);
    SamePagesOn(s.mem, s1.mem, s2.mem, root);
    if r == None { MissingFrom(s1.mem, root, page, k); }
    if Missing(s1.mem, root, page) == 0 { NoneMissing(s1.mem, root, page, k); }
  }

  lemma SamePagesOn(mem: Memory, mem1: Memory, mem2: Memory, root: nat)
    requires SamePages(mem, mem1, root) && SamePages(mem1, mem2, root)
    ensures SamePages(mem, mem2, root)
  {
  }

  lemma NoneMissing(mem: Memory, root: nat, page: Path, k: nat)
    requires PagePath(page) && k < 3 && Missing(mem, root, page) == 0
    ensures Reach(mem, root, page[..k + 1]).Some?
  {
  }

  /** map_page refines map update. It succeeds just when the frames for the missing tables are there;
      then the page has the new entry, every other page its old one, and so many frames are used up. When it fails, no translation
      changes. Either way the tables stay a tree the allocator does not touch. */
  lemma MapRefines(pool: Pool, s: Frames, root: nat, page: Path, e: nat)
    requires Space(pool, s, root) && PagePath(page)
    ensures var (s', ok) := MapPage(pool, s, root, page, e);
            && s.next <= pool.end && Space(pool, s', root) && Extends(pool, s, s', root, page)
            && (ok <==> Missing(s.mem, root, page) <= Spare(pool, s))
            && (ok ==> Updated(s.mem, s'.mem, root, page, e))
            && (ok ==> s'.next <= pool.end && Spare(pool, s') == Spare(pool, s) - Missing(s.mem, root, page))
            && (!ok ==> SamePages(s.mem, s'.mem, root))
  {
    hide Extends, SamePages, GetTable, Space, Missing, Spare, Updated;
    DownStart(pool, s, root, page);
    DownStep(pool, s, s, root, page, 0);
    var (s1, pdpt) := GetTable(pool, s, root, page[0]);
    if pdpt.Some? {
      DownStep(pool, s, s1, root, page, 1);
      var (s2, pd) := GetTable(pool, s1, pdpt.value, page[1]);
      if pd.Some? {
        DownStep(pool, s, s2, root, page, 2);
        var (s3, pt) := GetTable(pool, s2, pd.value, page[2]);
        if pt.Some? {
          MapLast(pool, s, s3, root, page, e);
        }
      }
    }
  }

  lemma DownStart(pool: Pool, s: Frames, root: nat, page: Path)
    requires Space(pool, s, root) && PagePath(page)
    ensures Down(pool, s, s, root, page, 0) && Reach(s.mem, root, page[..0]) == Some(root)
  {
    ExtendsSelf(pool, s, root, page);
  }

  lemma MapLast(pool: Pool, s: Frames, s3: Frames, root: nat, page: Path, e: nat)
    requires PagePath(page) && Down(pool, s, s3, root, page, 3)
    ensures var s' := Frames(SetWord(s3.mem, Reach(s3.mem, root, page[..3]).value, page[3], e), s3.free, s3.next);
            && Space(pool, s', root) && Extends(pool, s, s', root, page)
            && Missing(s.mem, root, page) <= Spare(pool, s)
            && s'.next <= pool.end && Spare(pool, s') == Spare(pool, s) - Missing(s.mem, root, page)
            && Updated(s.mem, s'.mem, root, page, e)
  {
    hide Reach, Spare;
    var t := Reach(s3.mem, root, page[..3]).value;
    var s' := Frames(SetWord(s3.mem, t, page[3], e), s3.free, s3.next);
    MissingFrom(s3.mem, root, page, 3);
    SetEntry(s3.mem, s'.mem, root, page, e);
    GoodAfterHook(pool, s3, s', t, page[3], e);
    TakenAfterHook(pool, s3, s');
    assert TablePath(page[..3]);
    assert IsReached(s3.mem, root, t);
    ExtendsOn(pool, s, s3, s', root, page);
  }

  // ---- unmap_page ----

  /** unmap_page removes exactly that page's translation, and fails just when there is none; it never
      moves a table or frees a frame. */
  lemma UnmapRefines(pool: Pool, s: Frames, root: nat, page: Path)
    requires Space(pool, s, root) && PagePath(page)
    ensures var (s', ok) := UnmapPage(s, root, page);
            && Space(pool, s', root) && s'.free == s.free && s'.next == s.next
            && (ok <==> Translate(s.mem, root, page).Some?)
            && Updated(s.mem, s'.mem, root, page, 0)
            && (forall q :: TablePath(q) ==> Reach(s'.mem, root, q) == Reach(s.mem, root, q))
            && (forall q :: TablePath(q) && q != [] ==> EntryAt(s'.mem, root, q) == EntryAt(s.mem, root, q))
            && (forall f :: f in s.mem && !IsReached(s.mem, root, f) ==> f in s'.mem && s'.mem[f] == s.mem[f])
  {
    hide Reach, Taken;
    if Translate(s.mem, root, page).Some? {
      var t := PageTableOf(s.mem, root, page);
      var s' := UnmapPage(s, root, page).0;
      SetEntry(s.mem, s'.mem, root, page, 0);
      GoodAfterHook(pool, s, s', t, page[3], 0);
      TakenAfterHook(pool, s, s');
      assert TablePath(page[..3]);
      assert IsReached(s.mem, root, t);
    }
  }

  lemma PageTableOf(mem: Memory, root: nat, page: Path) returns (t: nat)
    requires PagePath(page) && Translate(mem, root, page).Some?
    ensures Reach(mem, root, page[..3]) == Some(t)
  {
    t := Reach(mem, root, page[..3]).value;
  }

  /** Mapping a page and unmapping it again leaves every other page as it was. */
  lemma MapThenUnmap(pool: Pool, s: Frames, root: nat, page: Path, e: nat)
    requires Space(pool, s, root) && PagePath(page) && Present(e)
    requires MapPage(pool, s, root, page, e).1
    ensures var (s', ok) := UnmapPage(MapPage(pool, s, root, page, e).0, root, page);
            ok && Updated(s.mem, s'.mem, root, page, 0)
  {
    hide MapPage, UnmapPage, Space;
    MapRefines(pool, s, root, page, e);
    UnmapRefines(pool, MapPage(pool, s, root, page, e).0, root, page);
  }
}
