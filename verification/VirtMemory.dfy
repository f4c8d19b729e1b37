/** `alloc_virt_pages` and `free_virt_pages`: blocks of virtual pages backed by frames of their own
    (kernel/memory_manager.c). */
module VirtMemory {
  import opened Words
  import opened FreeList
  import opened Threads
  import opened PhysMem
  import opened Paging
  import opened BlockTables
  import opened Gaps
  import opened VirtTable
  import opened Ownership

  lemma InTables(dir: seq<Word>, v: nat)
    requires |dir| == ENTRIES && v < PAGES && InSlot(dir, v)
    ensures FrameOf(dir[v / ENTRIES]) in Tables(dir)
  {}

  lemma SeparateTables(dir: seq<Word>, pd: nat, free: set<nat>)
    requires Separate(dir, pd, free)
    ensures Tables(dir) !! free && pd !in Tables(dir)
  {}

  lemma StillSeparate(dir: seq<Word>, pd: nat, free: set<nat>, free': set<nat>)
    requires Separate(dir, pd, free) && free' !! Tables(dir) && pd !in free'
    ensures Separate(dir, pd, free')
  {
    forall d | 0 <= d < |dir| && Present(dir[d]) ensures FrameOf(dir[d]) !in free' {
      assert FrameOf(dir[d]) in Tables(dir);
    }
  }

  /** `alloc_phys_pages(1)` beside the page tables. */
  method TakePage(m: PhysMemory, ghost pd: nat) returns (paddr: Word)
    requires WellMapped(m, pd)
    modifies m, m.ram
    ensures WellMapped(m, pd)
    ensures paddr == NONE <==> old(m.freeCount) == 0
    ensures paddr != NONE ==>
      && paddr % PAGE_SIZE == 0 && paddr / PAGE_SIZE in old(m.Free())
      && m.Free() == old(m.Free()) - {paddr / PAGE_SIZE} && m.freeCount == old(m.freeCount) - 1
      && forall q | q in m.Free() :: q < paddr / PAGE_SIZE
    ensures Directory(m, pd) == old(Directory(m, pd)) && Mapping(m, pd) == old(Mapping(m, pd))
  {
    hide WellFormed, Pages, Sum, Threaded, Separate, Tables, NoRun;
    ghost var dir, mp, free := Directory(m, pd), Mapping(m, pd), m.Free();
    SeparateTables(dir, pd, free);
    PdNotFree(dir, pd, free);
    paddr := m.AllocPhysPages(1);
    assert Directory(m, pd) == dir;
    forall v: nat | v < PAGES && InSlot(dir, v) ensures Pte(m, pd, v) == old(Pte(m, pd, v)) { InTables(dir, v); }
    assert Mapping(m, pd) == mp;
    if paddr != NONE {
      assert Range(paddr / PAGE_SIZE, 1) == {paddr / PAGE_SIZE};
      HighestPage(free, paddr / PAGE_SIZE);
      StillSeparate(dir, pd, free, m.Free());
    }
  }

  lemma HighestPage(free: set<nat>, p: nat)
    requires HighestRun(free, p, 1)
    ensures forall q | q in free :: q <= p
  {
    forall q | q in free ensures q <= p { assert Range(q, 1) == {q}; }
  }

  lemma PdNotFree(dir: seq<Word>, pd: nat, free: set<nat>)
    requires Separate(dir, pd, free)
    ensures pd !in free
  {}

  /** `free_phys_pages(paddr, 1)` beside the page tables. */
  method GivePage(m: PhysMemory, paddr: Word, ghost pd: nat, ghost f: nat)
    requires WellMapped(m, pd) && paddr == Addr(f) && f + 1 < PAGES
    requires f !in m.Free() && f !in Tables(Directory(m, pd)) && f != pd && CoveredPage(m.Free(), f)
    modifies m, m.ram
    ensures WellMapped(m, pd)
    ensures m.Free() == old(m.Free()) + {f} && m.freeCount == old(m.freeCount) + 1
    ensures Directory(m, pd) == old(Directory(m, pd)) && Mapping(m, pd) == old(Mapping(m, pd))
  {
    hide WellFormed, Pages, Sum, Threaded, Separate, Tables, Covered;
    ghost var dir, mp, free := Directory(m, pd), Mapping(m, pd), m.Free();
    SeparateTables(dir, pd, free);
    PdNotFree(dir, pd, free);
    assert Range(f, 1) == {f};
    m.FreePhysPages(paddr, 1);
    assert Directory(m, pd) == dir;
    forall v: nat | v < PAGES && InSlot(dir, v) ensures Pte(m, pd, v) == old(Pte(m, pd, v)) { InTables(dir, v); }
    assert Mapping(m, pd) == mp;
    StillSeparate(dir, pd, free, m.Free());
  }

  /** The owned pages are mapped and apart, and every managed frame is accounted for. */
  ghost predicate Owned(m: PhysMemory, pd: nat, managed: set<nat>, owner: Owners)
    reads m, m.ram
  {
    && WellMapped(m, pd)
    && OwnedApart(owner, Mapping(m, pd), m.Free(), Tables(Directory(m, pd)), pd)
    && Accounted(managed, owner, m.Free(), Tables(Directory(m, pd)))
  }

  /** Of `budget` free pages, `each` for every page before `i` and one for every table that these
      lacked are spent, and the rest of the range is covered. */
  ghost predicate Affordable(
    m: PhysMemory, pd: nat, dir: seq<Word>, budget: nat, vp: nat, i: nat, count: nat, each: nat)
    requires |dir| == ENTRIES && i <= count && vp + count <= PAGES && m.Sized() && pd < PAGES
    reads m, m.ram
  {
    && Filled(dir, Directory(m, pd), Missing(dir, vp, i))
    && m.freeCount == budget - i * each - |Missing(dir, vp, i)|
    && budget >= count * each + |Missing(dir, vp, count)|
  }

  lemma MissingOne(dir: seq<Word>, v: nat)
    requires |dir| == ENTRIES && v + 1 <= PAGES
    ensures Missing(dir, v, 1) == if Present(dir[v / ENTRIES]) then {} else {v / ENTRIES}
  {
    assert Missing(dir, v, 0) == {};
  }

  lemma NextMissing(dir: seq<Word>, now: seq<Word>, vp: nat, i: nat, count: nat)
    requires |dir| == |now| == ENTRIES && i < count && vp + count <= PAGES
    requires Filled(dir, now, Missing(dir, vp, i))
    ensures |Missing(now, vp + i, 1)| == |Missing(dir, vp, i + 1)| - |Missing(dir, vp, i)|
    ensures |Missing(dir, vp, i + 1)| <= |Missing(dir, vp, count)|
  {
    hide Missing;
    MissingStep(dir, vp, i);
    MissingOne(now, vp + i);
    MissingGrows(dir, vp, i + 1, count);
    SubsetSize(Missing(dir, vp, i + 1), Missing(dir, vp, count));
  }

  lemma NextFilled(dir: seq<Word>, now: seq<Word>, now': seq<Word>, vp: nat, i: nat)
    requires |dir| == |now| == ENTRIES && vp + i + 1 <= PAGES
    requires Filled(dir, now, Missing(dir, vp, i)) && Filled(now, now', Missing(now, vp + i, 1))
    ensures Filled(dir, now', Missing(dir, vp, i + 1))
  {
    hide Missing;
    MissingOne(now, vp + i);
    FillStep(dir, now, now', vp, i);
  }

  /** The entry of each of these pages is its own frame with exactly these flags. */
  ghost predicate Backed(mp: map<nat, Word>, owner: Owners, pages: set<nat>, flags: Word) {
    forall v | v in pages :: v in owner && v in mp && mp[v] == Addr(owner[v]) + flags
  }

  lemma BackedNone(mp: map<nat, Word>, owner: Owners, vp: nat, flags: Word, dir: seq<Word>)
    ensures Backed(mp, owner, Range(vp, 0), flags) && KeepsOthers(mp, mp, Range(vp, 0)) && SlotsKept(dir, dir)
  {}

  lemma BackedOne(
    mp: map<nat, Word>, mp': map<nat, Word>, owner: Owners, owner': Owners, vp: nat, i: nat, flags: Word)
    requires Backed(mp, owner, Range(vp, i), flags) && Extends(owner, owner', {vp + i})
    requires KeepsOthers(mp, mp', {vp + i}) && Backed(mp', owner', {vp + i}, flags)
    ensures Backed(mp', owner', Range(vp, i + 1), flags)
  {
    hide Range;
    RangeStep(vp, i);
  }

  lemma KeepsOneMore(a: map<nat, Word>, b: map<nat, Word>, c: map<nat, Word>, vp: nat, i: nat)
    requires KeepsOthers(a, b, Range(vp, i)) && KeepsOthers(b, c, {vp + i})
    ensures KeepsOthers(a, c, Range(vp, i + 1))
  {
    hide Range;
    RangeStep(vp, i);
  }

  /** One turn of the anonymous loop of `alloc_virt_pages`: a fresh frame behind one page. */
  method GrantPage(
    m: PhysMemory, pageDir: Word, vaddr: Word, flags: Word, ghost pd: nat, ghost managed: set<nat>, ghost owner: Owners,
    ghost dir: seq<Word>, ghost budget: nat, ghost vp: nat, ghost i: nat, ghost count: nat)
    returns (ghost owner': Owners)
    requires Owned(m, pd, managed, owner) && pageDir == Addr(pd) && flags < PAGE_SIZE
    requires |dir| == ENTRIES && i < count && vp + count <= PAGES && vaddr / PAGE_SIZE == vp + i && vp + i !in owner
    requires Affordable(m, pd, dir, budget, vp, i, count, 1)
    modifies m, m.ram
    ensures Owned(m, pd, managed, owner')
    ensures Extends(owner, owner', {vp + i}) && OnTop(owner', {vp + i}, m.Free()) && m.Free() <= old(m.Free())
    ensures vp + i in owner' && owner'[vp + i] in old(m.Free())
    ensures Backed(Mapping(m, pd), owner', {vp + i}, flags)
    ensures KeepsOthers(old(Mapping(m, pd)), Mapping(m, pd), {vp + i})
    ensures SlotsKept(old(Directory(m, pd)), Directory(m, pd))
    ensures Affordable(m, pd, dir, budget, vp, i + 1, count, 1)
  {
    hide WellFormed, Pages, Sum, Threaded, Separate, Tables, OwnedApart, Accounted, Missing, Filled,
      KeepsOthers, Maps, Mapping, Translated, KeepsTranslations, SlotsKept, Grants;
    ghost var now, mp, free := Directory(m, pd), Mapping(m, pd), m.Free();
    NextMissing(dir, now, vp, i, count);
    SeparateTables(now, pd, free);
    PdNotFree(now, pd, free);
    var paddr := TakePage(m, pd);
    ghost var f := paddr / PAGE_SIZE;
    var ok, done := MapPages(m, pageDir, vaddr, paddr, 1, flags, pd);
    NextFilled(dir, now, Directory(m, pd), vp, i);
    SeparateTables(Directory(m, pd), pd, m.Free());
    assert Range(vp + i, 1) == {vp + i};
    OneMapped(Mapping(m, pd), vp + i, paddr, flags);
    GainPage(
      managed, owner, mp, free, Tables(now), pd, vp + i, f, Mapping(m, pd), m.Free(), Tables(Directory(m, pd)));
    owner' := owner[vp + i := f];
  }

  lemma OneMapped(mp: map<nat, Word>, v: nat, paddr: Word, flags: Word)
    requires Maps(mp, v, PageBase(paddr), 1, flags) && flags < PAGE_SIZE
    ensures v in mp && FrameOf(mp[v]) == paddr / PAGE_SIZE
    ensures paddr % PAGE_SIZE == 0 ==> mp[v] == paddr + flags
  {
    assert mp[v] == Wrap(PageBase(paddr)) + flags;
  }

  lemma OnePointed(mp: map<nat, Word>, v: nat, paddr: Word, flags: Word)
    requires Maps(mp, v, PageBase(paddr), 1, flags)
    ensures v in mp && mp[v] == PageBase(paddr) + flags
  {
    assert mp[v] == Wrap(PageBase(paddr)) + flags;
  }

  /** One turn of the fixed-address loop of `alloc_virt_pages`: no frame changes hands but for tables. */
  method PointPage(
    m: PhysMemory, pageDir: Word, vaddr: Word, paddr: Word, flags: Word, ghost pd: nat,
    ghost managed: set<nat>, ghost owner: Owners,
    ghost dir: seq<Word>, ghost budget: nat, ghost vp: nat, ghost i: nat, ghost count: nat)
    requires Owned(m, pd, managed, owner) && pageDir == Addr(pd) && flags < PAGE_SIZE
    requires |dir| == ENTRIES && i < count && vp + count <= PAGES && vaddr / PAGE_SIZE == vp + i && vp + i !in owner
    requires Affordable(m, pd, dir, budget, vp, i, count, 0)
    modifies m, m.ram
    ensures Owned(m, pd, managed, owner) && m.Free() <= old(m.Free())
    ensures Affordable(m, pd, dir, budget, vp, i + 1, count, 0)
    ensures KeepsOthers(old(Mapping(m, pd)), Mapping(m, pd), {vp + i})
    ensures SlotsKept(old(Directory(m, pd)), Directory(m, pd))
    ensures vp + i in Mapping(m, pd) && Mapping(m, pd)[vp + i] == PageBase(paddr) + flags
  {
    hide WellFormed, Pages, Sum, Threaded, Separate, Tables, OwnedApart, Accounted, Missing, Filled,
      Translated, KeepsTranslations, SlotsKept, Grants, KeepsOthers, Maps, Mapping;
    ghost var now, mp, free := Directory(m, pd), Mapping(m, pd), m.Free();
    NextMissing(dir, now, vp, i, count);
    var ok, done := MapPages(m, pageDir, vaddr, paddr, 1, flags, pd);
    NextFilled(dir, now, Directory(m, pd), vp, i);
    SeparateTables(Directory(m, pd), pd, m.Free());
    assert Range(vp + i, 1) == {vp + i};
    OnePointed(Mapping(m, pd), vp + i, paddr, flags);
    KeepPages(managed, owner, mp, free, Tables(now), pd, vp + i, Mapping(m, pd), m.Free(), Tables(Directory(m, pd)));
  }

  /** One turn of the loop of `free_virt_pages`: the frame behind one page becomes free. */
  method ReclaimPage(
    m: PhysMemory, pageDir: Word, vaddr: Word, ghost pd: nat, ghost managed: set<nat>, ghost owner: Owners)
    returns (ghost owner': Owners)
    requires Owned(m, pd, managed, owner) && pageDir == Addr(pd) && vaddr % PAGE_SIZE == 0
    requires vaddr / PAGE_SIZE in owner && (forall p | p in managed :: p + 1 < PAGES)
    requires CoveredPage(m.Free(), owner[vaddr / PAGE_SIZE])
    modifies m, m.ram
    ensures Owned(m, pd, managed, owner') && owner' == owner - {vaddr / PAGE_SIZE}
    ensures m.Free() == old(m.Free()) + {owner[vaddr / PAGE_SIZE]}
    ensures m.freeCount == old(m.freeCount) + 1
    ensures Directory(m, pd) == old(Directory(m, pd)) && Mapping(m, pd) == old(Mapping(m, pd))
  {
    hide WellFormed, Pages, Sum, Threaded, Separate, Tables;
    ghost var v := vaddr / PAGE_SIZE;
    assert Holds(owner, owner[v]);
    var paddr := GetPhysAddr(m, pageDir, vaddr);
    LosePage(managed, owner, Mapping(m, pd), m.Free(), Tables(Directory(m, pd)), pd, v);
    GivePage(m, paddr, pd, owner[v]);
    owner' := owner - {v};
  }

  // ----- blocks and their pages

  /** Virtual page `v` belongs to block `e`. */
  predicate PageOf(e: Entry, v: nat) {
    e.base / PAGE_SIZE <= v < e.base / PAGE_SIZE + e.size
  }

  /** Virtual page `v` belongs to a live anonymous block. */
  ghost predicate InBlock(t: seq<Entry>, anon: set<Word>, v: nat) {
    exists i :: 0 <= i < |t| && t[i].base in anon && PageOf(t[i], v)
  }

  ghost predicate Aligned(t: seq<Entry>) {
    forall i | 0 <= i < |t| :: t[i].base % PAGE_SIZE == 0
  }

  /** The lowest fit starts at the start of the space or where a block ends, so on a page. */
  lemma LowestFitAligned(t: seq<Entry>, start: Word, end: Word, base: Word, size: Word)
    requires Aligned(t) && start % PAGE_SIZE == 0 && LowestFit(PageSpans(t), start, end, base, PAGE_SIZE * size)
    ensures base % PAGE_SIZE == 0
  {
    hide LowestFit;
    var sp := PageSpans(t);
    LowestFitAtEdge(sp, start, end, base, PAGE_SIZE * size);
    if base != start {
      var i :| 0 <= i < |sp| && sp[i].hi == base;
      assert t[i].base % PAGE_SIZE == 0;
    }
  }

  /** The pages of a block that fits are nobody's yet. */
  lemma NewPagesUnowned(t: seq<Entry>, anon: set<Word>, start: Word, end: Word, e: Entry, v: nat)
    requires Aligned(t) && e.base % PAGE_SIZE == 0 && FitsAt(PageSpans(t), start, end, e.base, PAGE_SIZE * e.size)
    requires PageOf(e, v)
    ensures !InBlock(t, anon, v)
  {
    forall i | 0 <= i < |t| ensures !PageOf(t[i], v) {
      assert PageSpans(t)[i] == PageSpan(t[i]);
    }
  }

  lemma InsertedPages(t: seq<Entry>, k: nat, e: Entry, anon: set<Word>, v: nat)
    requires k <= |t| && forall i | 0 <= i < |t| :: t[i].base != e.base
    ensures InBlock(WithEntry(t, k, e), anon, v) <==> InBlock(t, anon, v) || (e.base in anon && PageOf(e, v))
    ensures InBlock(t, anon + {e.base}, v) <==> InBlock(t, anon, v)
  {
    var t' := WithEntry(t, k, e);
    assert t'[k] == e;
    if i :| 0 <= i < |t| && t[i].base in anon && PageOf(t[i], v) {
      assert t'[if i < k then i else i + 1] == t[i];
      assert t[i].base in anon + {e.base};
    }
    if i :| 0 <= i < |t'| && t'[i].base in anon && PageOf(t'[i], v) && i != k {
      assert t[if i < k then i else i - 1] == t'[i];
    }
  }

  lemma RemovedPages(t: seq<Entry>, k: nat, anon: set<Word>, v: nat)
    requires k < |t| && t[k].base in anon && forall i | 0 <= i < |t| && i != k :: t[i].base != t[k].base
    ensures InBlock(t, anon, v) <==> InBlock(WithoutEntry(t, k), anon - {t[k].base}, v) || PageOf(t[k], v)
  {
    var t', anon' := WithoutEntry(t, k), anon - {t[k].base};
    if i :| 0 <= i < |t| && t[i].base in anon && PageOf(t[i], v) && i != k {
      assert t'[if i < k then i else i - 1] == t[i];
    }
    if i :| 0 <= i < |t'| && t'[i].base in anon' && PageOf(t'[i], v) {
      assert t[if i < k then i else i + 1] == t'[i];
    }
  }

  // ----- the loops

  lemma PageAt(vaddr: Word, i: nat)
    requires vaddr % PAGE_SIZE == 0
    ensures (vaddr + i * PAGE_SIZE) % PAGE_SIZE == 0
    ensures (vaddr + i * PAGE_SIZE) / PAGE_SIZE == vaddr / PAGE_SIZE + i
    ensures vaddr / PAGE_SIZE + i < PAGES ==> vaddr + i * PAGE_SIZE < WORD_LIMIT
  {}

  lemma MapsNone(mp: map<nat, Word>, vp: nat, base: Word, flags: Word)
    ensures Maps(mp, vp, base, 0, flags)
  {}

  lemma MapsOne(a: map<nat, Word>, b: map<nat, Word>, vp: nat, base: Word, i: nat, flags: Word)
    requires Maps(a, vp, base, i, flags) && KeepsOthers(a, b, {vp + i})
    requires vp + i in b && b[vp + i] == Wrap(base + i * PAGE_SIZE) + flags
    ensures Maps(b, vp, base, i + 1, flags)
  {
    hide Wrap;
  }

  lemma NotOwned(owner: Owners, vp: nat, i: nat, count: nat)
    requires i < count && Range(vp, count) !! owner.Keys
    ensures vp + i !in owner
  {
    assert vp + i in Range(vp, count);
  }

  lemma SpentAll(m: PhysMemory, pd: nat, dir: seq<Word>, budget: nat, vp: nat, count: nat, each: nat)
    requires |dir| == ENTRIES && vp + count <= PAGES && m.Sized() && pd < PAGES
    requires Affordable(m, pd, dir, budget, vp, count, count, each)
    ensures m.freeCount == budget - count * each - |Missing(dir, vp, count)|
  {}

  lemma OwnedShape(m: PhysMemory, pd: nat, managed: set<nat>, owner: Owners)
    requires Owned(m, pd, managed, owner)
    ensures m.Sized() && pd < PAGES
  {}

  lemma AffordableAtStart(m: PhysMemory, pd: nat, dir: seq<Word>, budget: nat, vp: nat, count: nat, each: nat)
    requires m.Sized() && pd < PAGES && dir == Directory(m, pd) && vp + count <= PAGES && budget == m.freeCount
    requires count * each + |Missing(dir, vp, count)| <= m.freeCount
    ensures Affordable(m, pd, dir, budget, vp, 0, count, each)
  {}

  method GrantPages(m: PhysMemory, pageDir: Word, vaddr: Word, count: Word, flags: Word, ghost pd: nat,
                    ghost managed: set<nat>, ghost owner: Owners)
    returns (ghost owner': Owners)
    requires Owned(m, pd, managed, owner) && pageDir == Addr(pd) && flags < PAGE_SIZE
    requires vaddr % PAGE_SIZE == 0 && vaddr / PAGE_SIZE + count <= PAGES
    requires Range(vaddr / PAGE_SIZE, count) !! owner.Keys
    requires count + |Missing(Directory(m, pd), vaddr / PAGE_SIZE, count)| <= m.freeCount
    modifies m, m.ram
    ensures Owned(m, pd, managed, owner')
    ensures Extends(owner, owner', Range(vaddr / PAGE_SIZE, count))
    ensures OnTop(owner', Range(vaddr / PAGE_SIZE, count), m.Free()) && m.Free() <= old(m.Free())
    ensures Descending(owner', Range(vaddr / PAGE_SIZE, count), old(m.Free()))
    ensures Backed(Mapping(m, pd), owner', Range(vaddr / PAGE_SIZE, count), flags)
    ensures KeepsOthers(old(Mapping(m, pd)), Mapping(m, pd), Range(vaddr / PAGE_SIZE, count))
    ensures SlotsKept(old(Directory(m, pd)), Directory(m, pd))
    ensures m.freeCount == old(m.freeCount) - count - |Missing(old(Directory(m, pd)), vaddr / PAGE_SIZE, count)|
  {
    hide Owned, Affordable, Extends, OnTop, Descending, Backed, Pages, Missing, Directory, Range, Mapping,
      KeepsOthers, SlotsKept;
    OwnedShape(m, pd, managed, owner);
    ghost var vp, dir, budget, start := vaddr / PAGE_SIZE, Directory(m, pd), m.freeCount, m.Free();
    AffordableAtStart(m, pd, dir, budget, vp, count, 1);
    ExtendsNone(owner, vp);
    OnTopNone(owner, vp, m.Free());
    DescendingNone(owner, vp, start);
    ghost var mp := Mapping(m, pd);
    BackedNone(mp, owner, vp, flags, dir);
    owner' := owner;
    var i: Word := 0;
    while i < count
      invariant i <= count && Owned(m, pd, managed, owner')
      invariant Affordable(m, pd, dir, budget, vp, i, count, 1)
      invariant Extends(owner, owner', Range(vp, i)) && OnTop(owner', Range(vp, i), m.Free())
      invariant Descending(owner', Range(vp, i), start) && m.Free() <= start
      invariant Backed(Mapping(m, pd), owner', Range(vp, i), flags)
      invariant KeepsOthers(mp, Mapping(m, pd), Range(vp, i)) && SlotsKept(dir, Directory(m, pd))
    {
      PageAt(vaddr, i);
      NotYet(owner, owner', vp, i, count);
      ghost var before, free, mapped, now := owner', m.Free(), Mapping(m, pd), Directory(m, pd);
      owner' := GrantPage(m, pageDir, vaddr + i * PAGE_SIZE, flags, pd, managed, owner', dir, budget, vp, i, count);
      ExtendsOne(owner, before, owner', vp, i);
      OnTopOne(owner, before, owner', vp, i, free, m.Free());
      DescendingOne(owner, before, owner', vp, i, start, free);
      BackedOne(mapped, Mapping(m, pd), before, owner', vp, i, flags);
      KeepsOneMore(mp, mapped, Mapping(m, pd), vp, i);
      SlotsStillKept(dir, now, Directory(m, pd));
      i := i + 1;
    }
    SpentAll(m, pd, dir, budget, vp, count, 1);
  }

  method PointPages(m: PhysMemory, pageDir: Word, vaddr: Word, paddr: Word, count: Word, flags: Word, ghost pd: nat,
                    ghost managed: set<nat>, ghost owner: Owners)
    requires Owned(m, pd, managed, owner) && pageDir == Addr(pd) && flags < PAGE_SIZE
    requires vaddr % PAGE_SIZE == 0 && vaddr / PAGE_SIZE + count <= PAGES
    requires Range(vaddr / PAGE_SIZE, count) !! owner.Keys
    requires |Missing(Directory(m, pd), vaddr / PAGE_SIZE, count)| <= m.freeCount
    modifies m, m.ram
    ensures Owned(m, pd, managed, owner) && m.Free() <= old(m.Free())
    ensures Maps(Mapping(m, pd), vaddr / PAGE_SIZE, PageBase(paddr), count, flags)
    ensures KeepsOthers(old(Mapping(m, pd)), Mapping(m, pd), Range(vaddr / PAGE_SIZE, count))
    ensures SlotsKept(old(Directory(m, pd)), Directory(m, pd))
  {
    hide Owned, Affordable, Missing, Directory, Range, Mapping, Maps, KeepsOthers, Wrap, PageBase, Pages,
      SlotsKept;
    OwnedShape(m, pd, managed, owner);
    ghost var vp, dir, budget := vaddr / PAGE_SIZE, Directory(m, pd), m.freeCount;
    AffordableAtStart(m, pd, dir, budget, vp, count, 0);
    MapsNone(Mapping(m, pd), vp, PageBase(paddr), flags);
    ghost var mp := Mapping(m, pd);
    BackedNone(mp, owner, vp, flags, dir);
    var i: Word := 0;
    while i < count
      invariant i <= count && Owned(m, pd, managed, owner) && m.Free() <= old(m.Free())
      invariant Affordable(m, pd, dir, budget, vp, i, count, 0)
      invariant Maps(Mapping(m, pd), vp, PageBase(paddr), i, flags)
      invariant KeepsOthers(mp, Mapping(m, pd), Range(vp, i)) && SlotsKept(dir, Directory(m, pd))
    {
      NotOwned(owner, vp, i, count);
      PageAt(vaddr, i);
      PageStep(paddr, i);
      ghost var mapped, now := Mapping(m, pd), Directory(m, pd);
      PointPage(
        m, pageDir, vaddr + i * PAGE_SIZE, Wrap(paddr + i * PAGE_SIZE), flags, pd, managed, owner,
        dir, budget, vp, i, count);
      MapsOne(mapped, Mapping(m, pd), vp, PageBase(paddr), i, flags);
      KeepsOneMore(mp, mapped, Mapping(m, pd), vp, i);
      SlotsStillKept(dir, now, Directory(m, pd));
      i := i + 1;
    }
  }

  /** The frames behind `count` owned pages, in order. */
  ghost function Frames(owner: Owners, vp: nat, count: nat): (r: seq<nat>)
    requires forall v | v in Range(vp, count) :: v in owner
    ensures |r| == count
  {
    seq(count, i requires 0 <= i < count && vp + i in owner => owner[vp + i])
  }

  lemma FramesAre(owner: Owners, vp: nat, count: nat)
    requires forall v | v in Range(vp, count) :: v in owner
    ensures (set f | f in Frames(owner, vp, count)) == set v | v in Range(vp, count) && v in owner :: owner[v]
  {
    forall v | v in Range(vp, count) ensures owner[v] in Frames(owner, vp, count) {
      assert Frames(owner, vp, count)[v - vp] == owner[v];
    }
  }

  lemma CoveredNext(free: set<nat>, frames: seq<nat>, i: nat)
    requires i < |frames| && CoveredRun(free, frames[i..])
    ensures CoveredPage(free, frames[i]) && CoveredRun(free + {frames[i]}, frames[i + 1..])
  {
    hide CoveredPage;
    assert frames[i..][0] == frames[i] && frames[i..][1..] == frames[i + 1..];
  }

  method ReclaimPages(m: PhysMemory, pageDir: Word, vaddr: Word, count: Word, ghost pd: nat,
                      ghost managed: set<nat>, ghost owner: Owners)
    returns (ghost owner': Owners)
    requires Owned(m, pd, managed, owner) && pageDir == Addr(pd)
    requires vaddr % PAGE_SIZE == 0 && vaddr / PAGE_SIZE + count <= PAGES
    requires forall v | v in Range(vaddr / PAGE_SIZE, count) :: v in owner
    requires forall p | p in managed :: p + 1 < PAGES
    requires CoveredRun(m.Free(), Frames(owner, vaddr / PAGE_SIZE, count))
    modifies m, m.ram
    ensures Owned(m, pd, managed, owner') && owner' == owner - Range(vaddr / PAGE_SIZE, count)
    ensures m.freeCount == old(m.freeCount) + count
    ensures m.Free() == old(m.Free()) + set f | f in Frames(owner, vaddr / PAGE_SIZE, count)
    ensures Directory(m, pd) == old(Directory(m, pd)) && Mapping(m, pd) == old(Mapping(m, pd))
  {
    hide Owned, CoveredPage, CoveredRun, Mapping, Directory, Pages, Range;
    OwnedShape(m, pd, managed, owner);
    ghost var vp := vaddr / PAGE_SIZE;
    ghost var frames := Frames(owner, vp, count);
    owner' := owner;
    assert owner' == owner - Range(vp, 0);
    var i: Word := 0;
    while i < count
      invariant i <= count && Owned(m, pd, managed, owner') && owner' == owner - Range(vp, i)
      invariant CoveredRun(m.Free(), frames[i..])
      invariant m.freeCount == old(m.freeCount) + i
      invariant m.Free() == old(m.Free()) + set f | f in frames[..i]
      invariant Directory(m, pd) == old(Directory(m, pd)) && Mapping(m, pd) == old(Mapping(m, pd))
    {
      PageAt(vaddr, i);
      assert vp + i in Range(vp, count) && frames[i] == owner[vp + i];
      CoveredNext(m.Free(), frames, i);
      owner' := ReclaimPage(m, pageDir, vaddr + i * PAGE_SIZE, pd, managed, owner');
      assert frames[..i + 1] == frames[..i] + [frames[i]];
      i := i + 1;
    }
    assert frames[..count] == frames;
  }

  /** The block table is in order and the owned pages are the pages of the anonymous blocks. */
  ghost predicate BlocksOk(t: seq<Entry>, start: Word, end: Word, owner: Owners, anon: set<Word>) {
    && TableOk(t, start, end) && Aligned(t)
    && (forall v: nat :: v in owner <==> InBlock(t, anon, v))
    && (forall a | a in anon :: exists i :: 0 <= i < |t| && t[i].base == a)
  }

  /** There are `frames` free pages, and one more for every table that the lowest fit lacks. */
  ghost predicate EnoughPages(
    dir: seq<Word>, freeCount: nat, sp: seq<Span>, start: Word, end: Word, count: nat, frames: nat)
    requires |dir| == ENTRIES
  {
    forall b: nat | LowestFit(sp, start, end, b, PAGE_SIZE * count) && b / PAGE_SIZE + count <= PAGES ::
      frames + |Missing(dir, b / PAGE_SIZE, count)| <= freeCount
  }

  lemma BlocksTable(t: seq<Entry>, start: Word, end: Word, owner: Owners, anon: set<Word>)
    requires BlocksOk(t, start, end, owner, anon)
    ensures TableOk(t, start, end)
  {}

  /** The new block is on whole pages that nobody owns, and its base is new. */
  lemma NewBlock(
    t: seq<Entry>, t': seq<Entry>, k: nat, base: Word, size: Word, start: Word, end: Word,
    owner: Owners, anon: set<Word>)
    requires BlocksOk(t, start, end, owner, anon) && start % PAGE_SIZE == 0 && 0 < size
    requires Placed(t, t', k, base, size, start, end)
    ensures base % PAGE_SIZE == 0 && base / PAGE_SIZE + size <= PAGES
    ensures Range(base / PAGE_SIZE, size) !! owner.Keys
    ensures Aligned(t') && base !in anon && forall i | 0 <= i < |t| :: t[i].base != base
  {
    LowestFitAligned(t, start, end, base, size);
    var e := Entry(base, size);
    forall v | v in Range(base / PAGE_SIZE, size) ensures v !in owner {
      NewPagesUnowned(t, anon, start, end, e, v);
    }
    forall i | 0 <= i < |t| ensures t[i].base != base {
      assert PageSpans(t)[i] == PageSpan(t[i]);
    }
  }

  lemma Affords(
    dir: seq<Word>, freeCount: nat, t: seq<Entry>, start: Word, end: Word, base: Word, size: Word, frames: nat)
    requires |dir| == ENTRIES && EnoughPages(dir, freeCount, PageSpans(t), start, end, size, frames)
    requires LowestFit(PageSpans(t), start, end, base, PAGE_SIZE * size) && base / PAGE_SIZE + size <= PAGES
    ensures frames + |Missing(dir, base / PAGE_SIZE, size)| <= freeCount
  {}

  lemma EnoughForFewer(
    dir: seq<Word>, freeCount: nat, sp: seq<Span>, start: Word, end: Word, count: nat, frames: nat, fewer: nat)
    requires |dir| == ENTRIES && fewer <= frames && EnoughPages(dir, freeCount, sp, start, end, count, frames)
    ensures EnoughPages(dir, freeCount, sp, start, end, count, fewer)
  {
    hide LowestFit, Missing;
  }

  lemma BlockOwned(
    t: seq<Entry>, t': seq<Entry>, k: nat, base: Word, size: Word, start: Word, end: Word,
    owner: Owners, owner': Owners, anon: set<Word>)
    requires BlocksOk(t, start, end, owner, anon) && Placed(t, t', k, base, size, start, end) && Aligned(t')
    requires forall i | 0 <= i < |t| :: t[i].base != base
    requires Extends(owner, owner', Range(base / PAGE_SIZE, size))
    ensures BlocksOk(t', start, end, owner', anon + {base})
  {
    hide TableOk, LowestFit;
    var e := Entry(base, size);
    forall v: nat ensures v in owner' <==> InBlock(t', anon + {base}, v) {
      InsertedPages(t, k, e, anon + {base}, v);
      InsertedPages(t, k, e, anon, v);
    }
    forall a | a in anon + {base} ensures exists i :: 0 <= i < |t'| && t'[i].base == a {
      KeepsBases(t, k, e, a);
    }
  }

  lemma BlockFixed(
    t: seq<Entry>, t': seq<Entry>, k: nat, base: Word, size: Word, start: Word, end: Word,
    owner: Owners, anon: set<Word>)
    requires BlocksOk(t, start, end, owner, anon) && Placed(t, t', k, base, size, start, end) && Aligned(t')
    requires base !in anon && forall i | 0 <= i < |t| :: t[i].base != base
    ensures BlocksOk(t', start, end, owner, anon)
  {
    hide TableOk, LowestFit;
    var e := Entry(base, size);
    forall v: nat ensures v in owner <==> InBlock(t', anon, v) {
      InsertedPages(t, k, e, anon, v);
    }
    forall a | a in anon ensures exists i :: 0 <= i < |t'| && t'[i].base == a {
      KeepsBases(t, k, e, a);
    }
  }

  lemma KeepsBases(t: seq<Entry>, k: nat, e: Entry, a: Word)
    requires k <= |t|
    requires a == e.base || exists i :: 0 <= i < |t| && t[i].base == a
    ensures exists i :: 0 <= i < |WithEntry(t, k, e)| && WithEntry(t, k, e)[i].base == a
  {
    var t' := WithEntry(t, k, e);
    if a == e.base {
      assert t'[k] == e;
    } else {
      var i :| 0 <= i < |t| && t[i].base == a;
      assert t'[if i < k then i else i + 1] == t[i];
    }
  }

  lemma BlockBelowEnd(t: seq<Entry>, start: Word, end: Word, k: nat)
    requires TableOk(t, start, end) && k < |t|
    ensures t[k].base / PAGE_SIZE + t[k].size <= PAGES
  {
    assert PageSpans(t)[k] == PageSpan(t[k]);
  }

  lemma StillAligned(t: seq<Entry>, k: nat)
    requires Aligned(t) && k < |t|
    ensures Aligned(WithoutEntry(t, k)) && t[k].base % PAGE_SIZE == 0
  {
    forall i | 0 <= i < |t| - 1 ensures WithoutEntry(t, k)[i].base % PAGE_SIZE == 0 {
      assert WithoutEntry(t, k)[i] == t[if i < k then i else i + 1];
    }
  }

  /** The block being freed: its record, its pages, and its frames, in the order of the loop. */
  lemma OldBlock(
    t: seq<Entry>, t': seq<Entry>, k: nat, base: Word, size: Word, start: Word, end: Word,
    owner: Owners, anon: set<Word>)
    requires BlocksOk(t, start, end, owner, anon) && Deleted(t, t', k, base, size) && base in anon
    ensures k < |t| && t[k] == Entry(base, size) && t' == WithoutEntry(t, k)
    ensures base % PAGE_SIZE == 0 && base / PAGE_SIZE + size <= PAGES
    ensures forall v | v in Range(base / PAGE_SIZE, size) :: v in owner
    ensures BlocksOk(t', start, end, owner - Range(base / PAGE_SIZE, size), anon - {base})
  {
    hide TableOk, Aligned;
    StillAligned(t, k);
    var pages := Range(base / PAGE_SIZE, size);
    var j :| 0 <= j < |t| && t[j].base == base;
    BlockBelowEnd(t, start, end, k);
    forall v | v in pages ensures v in owner {
      assert t[k].base in anon && PageOf(t[k], v);
    }
    forall i | 0 <= i < |t| && i != k ensures t[i].base != base { BasesDiffer(t, start, end, i, k); }
    DelKeepsTable(t, t', k, base, size, start, end);
    forall v: nat ensures v in owner - pages <==> InBlock(t', anon - {base}, v) {
      RemovedPages(t, k, anon, v);
      if PageOf(t[k], v) { OtherBlocksElsewhere(t, k, anon, start, end, v); }
    }
    forall a | a in anon - {base} ensures exists i :: 0 <= i < |t'| && t'[i].base == a {
      var i :| 0 <= i < |t| && t[i].base == a;
      assert t'[if i < k then i else i - 1] == t[i];
    }
  }

  /** A page of block `k` is in no other block. */
  lemma OtherBlocksElsewhere(t: seq<Entry>, k: nat, anon: set<Word>, start: Word, end: Word, v: nat)
    requires TableOk(t, start, end) && Aligned(t) && k < |t| && PageOf(t[k], v)
    ensures !InBlock(WithoutEntry(t, k), anon, v)
  {
    var t' := WithoutEntry(t, k);
    forall j | 0 <= j < |t'| ensures !PageOf(t'[j], v) {
      var i := if j < k then j else j + 1;
      assert t'[j] == t[i];
      var sp := PageSpans(t);
      assert sp[i] == PageSpan(t[i]) && sp[k] == PageSpan(t[k]);
      assert if i < k then sp[i].hi <= sp[k].lo else sp[k].hi <= sp[i].lo;
      assert t[i].base % PAGE_SIZE == 0 && t[k].base % PAGE_SIZE == 0;
    }
  }

  ghost predicate AllOwned(owner: Owners, vp: nat, count: nat) {
    forall v | v in Range(vp, count) :: v in owner
  }

  /** Giving back the frames of the block at `base`, in page order, stays within the covered cases. */
  ghost predicate Returnable(free: set<nat>, t: seq<Entry>, owner: Owners, base: Word) {
    forall i | 0 <= i < |t| && t[i].base == base && AllOwned(owner, base / PAGE_SIZE, t[i].size) ::
      CoveredRun(free, Frames(owner, base / PAGE_SIZE, t[i].size))
  }

  lemma UnmappedStillOwned(
    owner: Owners, mp: map<nat, Word>, mp': map<nat, Word>, free: set<nat>, tables: set<nat>, pd: nat, pages: set<nat>)
    requires OwnedApart(owner, mp, free, tables, pd) && KeepsOthers(mp, mp', pages) && owner.Keys !! pages
    ensures OwnedApart(owner, mp', free, tables, pd)
  {}

  /** `unmap_pages` on pages that are no longer owned. */
  method ForgetPages(
    m: PhysMemory, pageDir: Word, vaddr: Word, count: Word, ghost pd: nat, ghost managed: set<nat>, ghost owner: Owners)
    requires Owned(m, pd, managed, owner) && pageDir == Addr(pd)
    requires vaddr / PAGE_SIZE + count <= PAGES && owner.Keys !! Range(vaddr / PAGE_SIZE, count)
    modifies m`window, m.ram
    ensures Owned(m, pd, managed, owner) && Directory(m, pd) == old(Directory(m, pd))
    ensures KeepsOthers(old(Mapping(m, pd)), Mapping(m, pd), Range(vaddr / PAGE_SIZE, count))
    ensures (forall v | v in Range(vaddr / PAGE_SIZE, count) :: v in old(Mapping(m, pd))) ==>
              Cleared(Mapping(m, pd), vaddr / PAGE_SIZE, count)
  {
    hide WellFormed, Pages, Sum, Threaded, Separate, Tables, OwnedApart, KeepsOthers, Cleared, Accounted,
      Translated, KeepsTranslations;
    ghost var mp := Mapping(m, pd);
    var ok, done := UnmapPages(m, pageDir, vaddr, count, pd);
    UnmappedStillOwned(
      owner, mp, Mapping(m, pd), m.Free(), Tables(Directory(m, pd)), pd, Range(vaddr / PAGE_SIZE, count));
    if forall v | v in Range(vaddr / PAGE_SIZE, count) :: v in mp {
      forall v | vaddr / PAGE_SIZE <= v < vaddr / PAGE_SIZE + count ensures HasTable(m, pd, v) {
        assert v in Range(vaddr / PAGE_SIZE, count) && v in mp;
      }
    }
  }

  lemma OwnedMapped(m: PhysMemory, pd: nat, managed: set<nat>, owner: Owners, pages: set<nat>)
    requires Owned(m, pd, managed, owner) && pages <= owner.Keys
    ensures forall v | v in pages :: v in Mapping(m, pd)
  {}

  /** Virtual page `v` lies in exactly one live block, and that block is anonymous. */
  ghost predicate InOneBlock(t: seq<Entry>, anon: set<Word>, v: nat) {
    exists i :: 0 <= i < |t| && t[i].base in anon && PageOf(t[i], v) &&
                forall j | 0 <= j < |t| && PageOf(t[j], v) :: j == i
  }

  /** A page is in at most one live block. */
  lemma OneBlock(t: seq<Entry>, start: Word, end: Word, i: nat, j: nat, v: nat)
    requires TableOk(t, start, end) && Aligned(t) && i < |t| && j < |t| && PageOf(t[i], v) && PageOf(t[j], v)
    ensures i == j
  {
    var sp := PageSpans(t);
    assert sp[i] == PageSpan(t[i]) && sp[j] == PageSpan(t[j]);
    assert t[i].base % PAGE_SIZE == 0 && t[j].base % PAGE_SIZE == 0;
    SpansApart(sp, start, end, i, j);
  }

  /** The frames of a block that lie above a free page can be returned. */
  lemma OnTopReturnable(
    t: seq<Entry>, start: Word, end: Word, owner: Owners, free: set<nat>, k: nat, base: Word, size: Word)
    requires TableOk(t, start, end) && k < |t| && t[k] == Entry(base, size) && free != {}
    requires OnTop(owner, Range(base / PAGE_SIZE, size), free)
    ensures Returnable(free, t, owner, base)
  {
    var low :| low in free;
    forall i | 0 <= i < |t| && t[i].base == base && AllOwned(owner, base / PAGE_SIZE, t[i].size)
      ensures CoveredRun(free, Frames(owner, base / PAGE_SIZE, t[i].size))
    {
      SameBlock(t, start, end, i, k);
      LowPageCovers(free, Frames(owner, base / PAGE_SIZE, size), low);
    }
  }

  /** With no page free, descending frames can be returned only if there is just one. */
  lemma DescendingReturnable(
    t: seq<Entry>, start: Word, end: Word, owner: Owners, from: set<nat>, k: nat, base: Word, size: Word)
    requires TableOk(t, start, end) && k < |t| && t[k] == Entry(base, size) && AllOwned(owner, base / PAGE_SIZE, size)
    requires Descending(owner, Range(base / PAGE_SIZE, size), from)
    requires forall v | v in owner :: owner[v] + 1 < PAGES
    ensures Returnable({}, t, owner, base) <==> size <= 1
  {
    hide CoveredRun;
    var vp := base / PAGE_SIZE;
    var frames := Frames(owner, vp, size);
    if size <= 1 {
      forall i | 0 <= i < |t| && t[i].base == base && AllOwned(owner, vp, t[i].size)
        ensures CoveredRun({}, Frames(owner, vp, t[i].size))
      {
        SameBlock(t, start, end, i, k);
        OneFrameCovers(frames);
      }
    } else {
      assert vp in Range(vp, size) && vp + 1 in Range(vp, size);
      assert frames[0] == owner[vp] && frames[1] == owner[vp + 1];
      DescendingNotCovered(frames);
    }
  }

  lemma PageLeft(m: PhysMemory)
    requires m.Valid()
    ensures m.freeCount > 0 <==> m.Free() != {}
  {
    SumIsCardinality(m.blocks);
  }

  lemma SameBlock(t: seq<Entry>, start: Word, end: Word, i: nat, k: nat)
    requires TableOk(t, start, end) && i < |t| && k < |t| && t[i].base == t[k].base
    ensures i == k
  {
    SpansApart(PageSpans(t), start, end, i, k);
    assert PageSpans(t)[i].lo == PageSpans(t)[k].lo;
  }

  lemma OwnedBelowEnd(m: PhysMemory, pd: nat, managed: set<nat>, owner: Owners)
    requires Owned(m, pd, managed, owner) && forall p | p in managed :: p + 1 < PAGES
    ensures m.Valid() && forall v | v in owner :: owner[v] + 1 < PAGES
  {
    hide Mapping, Directory, Tables, WellMapped;
    OwnedValid(m, pd, managed, owner);
    forall v | v in owner ensures owner[v] in managed { assert Holds(owner, owner[v]); }
  }

  /** Straight after its allocation a block can be freed within the covered cases exactly when a page
      is left, or it has only one. */
  lemma ReturnableExactly(
    m: PhysMemory, pd: nat, managed: set<nat>, t: seq<Entry>, t': seq<Entry>, start: Word, end: Word,
    owner: Owners, owner': Owners, from: set<nat>, k: nat, base: Word, size: Word)
    requires Owned(m, pd, managed, owner') && (forall p | p in managed :: p + 1 < PAGES) && 0 < size
    requires Placed(t, t', k, base, size, start, end) && Extends(owner, owner', Range(base / PAGE_SIZE, size))
    requires OnTop(owner', Range(base / PAGE_SIZE, size), m.Free())
    requires Descending(owner', Range(base / PAGE_SIZE, size), from)
    ensures Returnable(m.Free(), t', owner', base) <==> 0 < m.freeCount || size == 1
  {
    hide Owned, OnTop, Descending, Returnable, TableOk, LowestFit, Pages, PageSpans;
    OwnedBelowEnd(m, pd, managed, owner');
    PageLeft(m);
    assert t'[k] == Entry(base, size) && AllOwned(owner', base / PAGE_SIZE, size);
    if m.Free() != {} {
      OnTopReturnable(t', start, end, owner', m.Free(), k, base, size);
    } else {
      DescendingReturnable(t', start, end, owner', from, k, base, size);
    }
  }

  /** An address space: its page tables, its block table, and (ghost) who owns which frame. */
  class AddressSpace {
    const phys: PhysMemory
    const table: BlockTable
    const pageDir: Word
    const start: Word
    const end: Word
    ghost const managed: set<nat>   // every frame that was ever free or a page table
    ghost var owner: Owners         // virtual page to frame, for anonymous blocks
    ghost var anon: set<Word>       // bases of the live anonymous blocks

    ghost function Pd(): nat { pageDir / PAGE_SIZE }

    ghost predicate Valid()
      reads this, phys, phys.ram, table, table.bytes
    {
      && (table.bytes as object) != phys.ram
      && pageDir % PAGE_SIZE == 0 && start % PAGE_SIZE == 0 && 0 < start
      && Owned(phys, Pd(), managed, owner)
      && (forall p | p in managed :: p + 1 < PAGES)
      && table.Valid() && 0 < table.count
      && BlocksOk(table.Live(), start, end, owner, anon)
    }

    /** The state after boot: fixed blocks only, and every managed frame free or a page table. */
    constructor (phys: PhysMemory, table: BlockTable, pageDir: Word, start: Word, end: Word)
      requires (table.bytes as object) != phys.ram && pageDir % PAGE_SIZE == 0 && start % PAGE_SIZE == 0 && 0 < start
      requires WellMapped(phys, pageDir / PAGE_SIZE)
      requires forall p | p in phys.Free() + Tables(Directory(phys, pageDir / PAGE_SIZE)) :: p + 1 < PAGES
      requires table.Valid() && 0 < table.count && TableOk(table.Live(), start, end) && Aligned(table.Live())
      ensures Valid() && anon == {} && owner == map[]
      ensures this.phys == phys && this.table == table
      ensures managed == phys.Free() + Tables(Directory(phys, pageDir / PAGE_SIZE))
    {
      this.phys, this.table, this.pageDir, this.start, this.end := phys, table, pageDir, start, end;
      managed := phys.Free() + Tables(Directory(phys, pageDir / PAGE_SIZE));
      owner, anon := map[], {};
      new;
      SeparateTables(Directory(phys, Pd()), Pd(), phys.Free());
    }

    /** `alloc_virt_pages(NULL, paddr, count, flags)`, with fresh frames when `paddr` is NONE. */
    method AllocVirtPages(paddr: Word, count: Word, flags: Word) returns (vaddr: Word, ghost k: nat)
      requires Valid() && flags < PAGE_SIZE && table.count + 2 <= SLOTS && 0 < count < 0x10_0000
      requires Fits(PageSpans(table.Live()), start, end, PAGE_SIZE * count)
      requires var frames := if paddr == NONE then count else 0;
               EnoughPages(
                 Directory(phys, Pd()), phys.freeCount, PageSpans(table.Live()), start, end, count, frames)
      modifies this, phys, phys.ram, table, table.bytes
      ensures Valid()
      ensures Placed(old(table.Live()), table.Live(), k, vaddr, count, start, end)
      ensures Range(vaddr / PAGE_SIZE, count) !! old(owner).Keys && vaddr !in old(anon)
      ensures vaddr / PAGE_SIZE + count <= PAGES && phys.Free() <= old(phys.Free())
      ensures KeepsOthers(old(Mapping(phys, Pd())), Mapping(phys, Pd()), Range(vaddr / PAGE_SIZE, count))
      ensures SlotsKept(old(Directory(phys, Pd())), Directory(phys, Pd()))
      ensures paddr == NONE ==>
                && anon == old(anon) + {vaddr} && Extends(old(owner), owner, Range(vaddr / PAGE_SIZE, count))
                && Backed(Mapping(phys, Pd()), owner, Range(vaddr / PAGE_SIZE, count), flags)
                && OnTop(owner, Range(vaddr / PAGE_SIZE, count), phys.Free())
                && Descending(owner, Range(vaddr / PAGE_SIZE, count), old(phys.Free()))
                && old(phys.freeCount) ==
                   phys.freeCount + count + |Missing(old(Directory(phys, Pd())), vaddr / PAGE_SIZE, count)|
      ensures paddr == NONE ==>
                (Returnable(phys.Free(), table.Live(), owner, vaddr) <==> 0 < phys.freeCount || count == 1)
      ensures paddr != NONE ==>
                && owner == old(owner) && anon == old(anon)
                && Maps(Mapping(phys, Pd()), vaddr / PAGE_SIZE, PageBase(paddr), count, flags)
    {
      hide Owned, BlocksOk, Placed, LowestFit, Fits, TableOk, PageSpans, Missing, Directory, Extends, OnTop, Pages,
        Range, Mapping, Maps, PageBase, WithEntry, Entries, EnoughPages, Descending, Returnable,
        Backed, KeepsOthers, SlotsKept;
      if 8 * (table.count + 1) > PAGE_SIZE {
        // Growing the block table to a second page is not part of this model.
        assert false;
      }
      ghost var before, free := table.Live(), phys.Free();
      OwnedShape(phys, Pd(), managed, owner);
      BlocksTable(before, start, end, owner, anon);
      vaddr, k := AddVirtBlock(table, start, end, count);
      NewBlock(before, table.Live(), k, vaddr, count, start, end, owner, anon);
      PlacedAt(before, table.Live(), k, vaddr, count, start, end);
      ghost var frames := if paddr == NONE then count else 0;
      Affords(Directory(phys, Pd()), phys.freeCount, before, start, end, vaddr, count, frames);
      if paddr == NONE {
        ghost var owner' := GrantPages(phys, pageDir, vaddr, count, flags, Pd(), managed, owner);
        BlockOwned(before, table.Live(), k, vaddr, count, start, end, owner, owner', anon);
        ReturnableExactly(
          phys, Pd(), managed, before, table.Live(), start, end, owner, owner', free, k, vaddr, count);
        owner, anon := owner', anon + {vaddr};
      } else {
        PointPages(phys, pageDir, vaddr, paddr, count, flags, Pd(), managed, owner);
        BlockFixed(before, table.Live(), k, vaddr, count, start, end, owner, anon);
      }
    }

    /** `free_virt_pages` on an anonymous block that is not the last block of the table. */
    method FreeVirtPages(vaddr: Word) returns (count: Word, ghost k: nat)
      requires Valid() && vaddr in anon && 2 <= table.count < SLOTS
      requires Returnable(phys.Free(), table.Live(), owner, vaddr)
      modifies this, phys, phys.ram, table, table.bytes
      ensures Valid()
      ensures Deleted(old(table.Live()), table.Live(), k, vaddr, count) && k < |old(table.Live())|
      ensures anon == old(anon) - {vaddr} && owner == old(owner) - Range(vaddr / PAGE_SIZE, count)
      ensures phys.Free() ==
              old(phys.Free()) + set v | v in Range(vaddr / PAGE_SIZE, count) && v in old(owner) :: old(owner)[v]
      ensures Directory(phys, Pd()) == old(Directory(phys, Pd()))
      ensures Cleared(Mapping(phys, Pd()), vaddr / PAGE_SIZE, count)
      ensures KeepsOthers(old(Mapping(phys, Pd())), Mapping(phys, Pd()), Range(vaddr / PAGE_SIZE, count))
    {
      hide Owned, BlocksOk, Deleted, Directory, Range, Mapping, Cleared, CoveredRun, WithoutEntry, Entries, Pages,
        KeepsOthers;
      ghost var before := table.Live();
      count, k := DelVirtBlock(table, vaddr);
      OldBlock(before, table.Live(), k, vaddr, count, start, end, owner, anon);
      OwnedShape(phys, Pd(), managed, owner);
      OwnedMapped(phys, Pd(), managed, owner, Range(vaddr / PAGE_SIZE, count));
      ghost var owner' := ReclaimPages(phys, pageDir, vaddr, count, Pd(), managed, owner);
      ForgetPages(phys, pageDir, vaddr, count, Pd(), managed, owner');
      FramesAre(owner, vaddr / PAGE_SIZE, count);
      owner, anon := owner', anon - {vaddr};
      if PAGE_SIZE - 8 * table.count >= PAGE_SIZE {
        // Giving the page of an empty block table back is not part of this model.
        assert false;
      }
    }
  }

  /** At every moment a managed frame is in exactly one place: the free list, a page table, or one
      virtual page, which the hardware maps to it and which lies in exactly one live block. */
  lemma EveryFrameInOnePlace(s: AddressSpace, p: nat)
    requires s.Valid() && p in s.managed
    ensures (if p in s.phys.Free() then 1 else 0) + (if p in Tables(Directory(s.phys, s.Pd())) then 1 else 0)
          + |set v | v in s.owner && s.owner[v] == p| == 1
    ensures forall v | v in s.owner && s.owner[v] == p ::
              && v in Mapping(s.phys, s.Pd()) && FrameOf(Mapping(s.phys, s.Pd())[v]) == p
              && InOneBlock(s.table.Live(), s.anon, v)
  {
    hide Mapping, Tables, Directory, Pages, WellMapped, Entries, TableOk;
    OwnedShape(s.phys, s.Pd(), s.managed, s.owner);
    ExactlyOnePlace(s.managed, s.owner, s.phys.Free(), Tables(Directory(s.phys, s.Pd())), p);
    var t := s.table.Live();
    forall v | v in s.owner && s.owner[v] == p
      ensures InOneBlock(t, s.anon, v)
    {
      assert InBlock(t, s.anon, v);
      var i :| 0 <= i < |t| && t[i].base in s.anon && PageOf(t[i], v);
      forall j | 0 <= j < |t| && PageOf(t[j], v) ensures j == i { OneBlock(t, s.start, s.end, i, j, v); }
    }
  }

  /** `free_virt_pages` straight after `alloc_virt_pages` undoes it: the same blocks, the same owners,
      and no frame lost, though page tables that were added stay. It needs one page still free, or a
      block of one page, to be within the covered cases. */
  method AllocThenFree(s: AddressSpace, count: Word, flags: Word)
    requires s.Valid() && flags < PAGE_SIZE && s.table.count + 2 <= SLOTS && 0 < count < 0x10_0000
    requires Fits(PageSpans(s.table.Live()), s.start, s.end, PAGE_SIZE * count)
    requires var frames := if count == 1 then 1 else count + 1;
             EnoughPages(
               Directory(s.phys, s.Pd()), s.phys.freeCount, PageSpans(s.table.Live()), s.start, s.end, count, frames)
    modifies s, s.phys, s.phys.ram, s.table, s.table.bytes
    ensures s.Valid() && s.table.Live() == old(s.table.Live())
    ensures s.owner == old(s.owner) && s.anon == old(s.anon)
    ensures s.phys.Free() + Tables(Directory(s.phys, s.Pd())) ==
            old(s.phys.Free() + Tables(Directory(s.phys, s.Pd())))
  {
    hide Fits, PageSpans, Missing, Directory, Mapping, Tables, Entries, Owned, OnTop, Descending, Pages, Returnable,
      BlocksOk, TableOk, Cleared, Placed, Deleted, LowestFit, EnoughPages;
    ghost var live, owner := s.table.Live(), s.owner;
    OwnedShape(s.phys, s.Pd(), s.managed, owner);
    var freeCount := s.phys.freeCount;
    ghost var dir, frames := Directory(s.phys, s.Pd()), if count == 1 then 1 else count + 1;
    EnoughForFewer(dir, freeCount, PageSpans(live), s.start, s.end, count, frames, count);
    OwnedRest(s.phys, s.Pd(), s.managed, owner);
    var vaddr, k := s.AllocVirtPages(NONE, count, flags);
    ghost var with := s.table.Live();
    PlacedAt(live, with, k, vaddr, count, s.start, s.end);
    Affords(dir, freeCount, live, s.start, s.end, vaddr, count, frames);
    var freed, j := s.FreeVirtPages(vaddr);
    DelUndoesAdd(live, with, s.table.Live(), k, j, vaddr, count, freed, s.start, s.end);
    OwnedRest(s.phys, s.Pd(), s.managed, s.owner);
  }

  lemma PlacedAt(t: seq<Entry>, t': seq<Entry>, k: nat, base: Word, size: Word, start: Word, end: Word)
    requires Placed(t, t', k, base, size, start, end)
    ensures k < |t'| == |t| + 1 && t'[k] == Entry(base, size)
    ensures LowestFit(PageSpans(t), start, end, base, PAGE_SIZE * size)
  {}

  /** What is neither free nor a page table is decided by who owns what. */
  lemma OwnedRest(m: PhysMemory, pd: nat, managed: set<nat>, owner: Owners)
    requires Owned(m, pd, managed, owner)
    ensures m.Sized() && pd < PAGES
    ensures forall p :: p in m.Free() + Tables(Directory(m, pd)) <==> p in managed && !Holds(owner, p)
  {
    hide Tables, Pages, Mapping, WellMapped, Directory;
    OwnedShape(m, pd, managed, owner);
  }

  lemma OwnedValid(m: PhysMemory, pd: nat, managed: set<nat>, owner: Owners)
    requires Owned(m, pd, managed, owner)
    ensures m.Valid()
  {}
}
