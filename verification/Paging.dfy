/** Two-level 32-bit page tables, edited through the window (kernel/memory_manager.c;
    section 4.3 of the Intel SDM, Volume 3A). */
module Paging {
  import opened Words
  import opened FreeList
  import opened Threads
  import opened PhysMem

  const ENTRIES := 1024
  const TABLE_FLAGS := 7            // PAGE_PRESENT | PAGE_WRITABLE | PAGE_USER

  function Present(entry: Word): bool { entry % 2 == 1 }

  function FrameOf(entry: Word): nat { entry / PAGE_SIZE }

  // ----- the directory, as a value

  /** The frames that hold page tables. */
  ghost function Tables(dir: seq<Word>): set<nat> {
    set d | 0 <= d < |dir| && Present(dir[d]) :: FrameOf(dir[d])
  }

  /** Directory entries in place are kept whole, and one that was filled since names a page table
      that is present, writable and open to user code. */
  ghost predicate SlotsKept(dir: seq<Word>, now: seq<Word>) {
    |now| == |dir| && forall d | 0 <= d < |dir| && now[d] != dir[d] :: !Present(dir[d]) && now[d] % 0x1000 == 7
  }

  lemma SlotsStillKept(a: seq<Word>, b: seq<Word>, c: seq<Word>)
    requires SlotsKept(a, b) && SlotsKept(b, c)
    ensures SlotsKept(a, c)
  {
    forall d | 0 <= d < |a| && c[d] != a[d] ensures !Present(a[d]) && c[d] % 0x1000 == 7 {
      if b[d] != a[d] && c[d] != b[d] { LowBits(b[d]); }
    }
  }

  lemma LowBits(entry: Word)
    ensures entry % 0x1000 == 7 ==> Present(entry)
  {}

  /** Page tables are distinct frames, none of them free or the directory `pd` itself. */
  ghost predicate Separate(dir: seq<Word>, pd: nat, free: set<nat>) {
    && |dir| == ENTRIES && pd < PAGES && pd !in free
    && (forall d | 0 <= d < |dir| && Present(dir[d]) :: FrameOf(dir[d]) !in free && FrameOf(dir[d]) != pd)
    && (forall d, e | 0 <= d < e < |dir| && Present(dir[d]) && Present(dir[e]) :: FrameOf(dir[d]) != FrameOf(dir[e]))
  }

  /** Hanging a free frame into an empty directory slot moves it from the free set to the tables. */
  lemma HangTable(dir: seq<Word>, pd: nat, free: set<nat>, d: nat, t: nat) returns (dir': seq<Word>)
    requires Separate(dir, pd, free) && d < ENTRIES && !Present(dir[d])
    requires t in free && t < PAGES
    ensures dir' == dir[d := Addr(t) + TABLE_FLAGS] && Present(dir'[d]) && FrameOf(dir'[d]) == t
    ensures Separate(dir', pd, free - {t})
    ensures Tables(dir') == Tables(dir) + {t}
  {
    dir' := dir[d := Addr(t) + TABLE_FLAGS];
    assert FrameOf(dir'[d]) == t && Present(dir'[d]);
    forall x ensures x in Tables(dir') <==> x in Tables(dir) + {t} {
      if x in Tables(dir) {
        var e :| 0 <= e < |dir| && Present(dir[e]) && FrameOf(dir[e]) == x;
        assert dir'[e] == dir[e];
      }
    }
  }

  // ----- page tables in memory

  ghost function Directory(m: PhysMemory, pd: nat): (dir: seq<Word>)
    requires m.Sized() && pd < PAGES
    reads m.ram
    ensures |dir| == ENTRIES
  {
    seq(ENTRIES, d requires 0 <= d < ENTRIES && m.Sized() && pd < PAGES reads m.ram => m.ram[pd, d])
  }

  /** The directory slot of virtual page `vp` is filled. */
  predicate InSlot(dir: seq<Word>, vp: nat)
    requires |dir| == ENTRIES && vp < PAGES
  {
    Present(dir[vp / ENTRIES])
  }

  /** Virtual page `vp` has a page table. */
  ghost predicate HasTable(m: PhysMemory, pd: nat, vp: nat)
    requires m.Sized() && pd < PAGES && vp < PAGES
    reads m.ram
  {
    InSlot(Directory(m, pd), vp)
  }

  /** The page-table entry that the hardware uses for virtual page `vp`. */
  ghost function Pte(m: PhysMemory, pd: nat, vp: nat): Word
    requires m.Sized() && pd < PAGES && vp < PAGES
    reads m.ram
  {
    m.ram[FrameOf(Directory(m, pd)[vp / ENTRIES]), vp % ENTRIES]
  }

  /** The entry that the hardware walks to for an address: bits 31 to 22 index the directory, bits 21
      to 12 the table. */
  ghost function EntryOf(m: PhysMemory, pd: nat, vaddr: Word): Word
    requires m.Sized() && pd < 0x10_0000
    reads m.ram
  {
    m.ram[m.ram[pd, vaddr / 0x40_0000] / 0x1000, vaddr / 0x1000 % 0x400]
  }

  lemma EntryIsPte(m: PhysMemory, pd: nat, vaddr: Word)
    requires m.Sized() && pd < PAGES
    ensures EntryOf(m, pd, vaddr) == Pte(m, pd, vaddr / PAGE_SIZE)
  {
    assert vaddr / PAGE_SIZE / ENTRIES == vaddr / 0x40_0000;
  }

  /** The free list is intact and the page tables are kept apart from it. */
  ghost predicate WellMapped(m: PhysMemory, pd: nat)
    reads m, m.ram
  {
    m.Valid() && pd < PAGES && Separate(Directory(m, pd), pd, m.Free())
  }

  /** `get_physaddr` */
  method GetPhysAddr(m: PhysMemory, pageDir: Word, vaddr: Word) returns (paddr: Word)
    requires m.Valid() && pageDir % PAGE_SIZE == 0
    modifies m`window
    ensures m.Valid()
    ensures paddr == Addr(FrameOf(Pte(m, pageDir / PAGE_SIZE, vaddr / PAGE_SIZE))) + vaddr % PAGE_SIZE
    ensures paddr == EntryOf(m, pageDir / 0x1000, vaddr) / 0x1000 * 0x1000 + vaddr % 0x1000
  {
    hide WellFormed, Pages, Sum, Threaded;
    EntryIsPte(m, pageDir / PAGE_SIZE, vaddr);
    var pdIndex := vaddr / 0x40_0000;
    var ptIndex := vaddr / PAGE_SIZE % ENTRIES;
    m.TempMapPage(pageDir);
    var pageTable := m.ram[m.window, pdIndex];
    m.TempMapPage(pageTable);
    paddr := m.ram[m.window, ptIndex] / PAGE_SIZE * PAGE_SIZE + vaddr % PAGE_SIZE;
  }

  /** The page table behind directory slot `pdIndex`: the one there is, or a fresh frame. */
  method EnsureTable(m: PhysMemory, pageDir: Word, pdIndex: Word, ghost pd: nat) returns (ok: bool)
    requires WellMapped(m, pd) && pageDir == Addr(pd) && pdIndex < ENTRIES
    modifies m, m.ram
    ensures WellMapped(m, pd)
    ensures ok <==> (old(Present(Directory(m, pd)[pdIndex])) || old(m.freeCount) > 0)
    ensures ok ==> Directory(m, pd)[pdIndex] % 2 == 1 && m.window == pd
    ensures m.freeCount == old(m.freeCount) - if ok && !old(Present(Directory(m, pd)[pdIndex])) then 1 else 0
    ensures m.Free() + Tables(Directory(m, pd)) == old(m.Free() + Tables(Directory(m, pd)))
    ensures forall d | 0 <= d < ENTRIES && (d != pdIndex || !ok || old(Present(Directory(m, pd)[d]))) ::
              Directory(m, pd)[d] == old(Directory(m, pd))[d]
    ensures SlotsKept(old(Directory(m, pd)), Directory(m, pd))
    ensures m.Free() <= old(m.Free())
    ensures forall p, k | 0 <= p < PAGES && 0 <= k < ENTRIES && p != pd && p !in old(m.Free()) ::
              m.ram[p, k] == old(m.ram[p, k])
  {
    assert pd !in m.Free();
    hide WellFormed, Pages, Sum, Threaded, Separate, Tables;
    m.TempMapPage(pageDir);
    var pageTable := m.ram[m.window, pdIndex];
    if !Present(pageTable) {
      ghost var dir, free := Directory(m, pd), m.Free();
      var addr := m.AllocPhysPages(1);
      if addr != NONE {
        assert Directory(m, pd) == dir;
        ghost var t := addr / PAGE_SIZE;
        assert t in free && m.Free() == free - {t} by { assert Range(t, 1) == {t}; }
        ghost var dir' := HangTable(dir, pd, free, pdIndex, t);
        m.TempMapPage(pageDir);
        m.WriteWord(pdIndex, addr + TABLE_FLAGS);
        assert Directory(m, pd) == dir';
      } else {
        assert Directory(m, pd) == dir;
        return false;
      }
    }
    ok := true;
  }

  function PageBase(addr: Word): Word { addr - addr % PAGE_SIZE }

  /** The entries of all the virtual pages that have a table. */
  ghost function Mapping(m: PhysMemory, pd: nat): map<nat, Word>
    requires m.Sized() && pd < PAGES
    reads m.ram
  {
    map v: nat | v < PAGES && HasTable(m, pd, v) :: Pte(m, pd, v)
  }

  /** Pages that had a table keep their entry, except perhaps the ones in `changed`. */
  ghost predicate KeepsOthers(a: map<nat, Word>, b: map<nat, Word>, changed: set<nat>) {
    forall v | v in a && v !in changed :: v in b && b[v] == a[v]
  }

  /** Writing the entry of a page that has a table, when the window shows the directory. */
  method SetEntry(m: PhysMemory, vaddr: Word, entry: Word, ghost pd: nat)
    requires WellMapped(m, pd) && m.window == pd && HasTable(m, pd, vaddr / PAGE_SIZE)
    modifies m`window, m.ram
    ensures WellMapped(m, pd) && Directory(m, pd) == old(Directory(m, pd))
    ensures vaddr / PAGE_SIZE in Mapping(m, pd) && Mapping(m, pd)[vaddr / PAGE_SIZE] == entry
    ensures EntryOf(m, pd, vaddr) == entry
    ensures KeepsOthers(old(Mapping(m, pd)), Mapping(m, pd), {vaddr / PAGE_SIZE})
  {
    hide WellFormed, Pages, Sum, Threaded, Tables;
    ghost var dir := Directory(m, pd);
    var pdIndex := vaddr / 0x40_0000;
    var ptIndex := vaddr / PAGE_SIZE % ENTRIES;
    assert pdIndex == vaddr / PAGE_SIZE / ENTRIES;
    m.TempMapPage(m.ram[m.window, pdIndex]);
    m.WriteWord(ptIndex, entry);
    assert Directory(m, pd) == dir;
    EntryIsPte(m, pd, vaddr);
  }

  /** One turn of the loop of `map_pages`. */
  method MapPage(m: PhysMemory, pageDir: Word, vaddr: Word, paddr: Word, flags: Word, ghost pd: nat) returns (ok: bool)
    requires WellMapped(m, pd) && pageDir == Addr(pd) && flags < PAGE_SIZE
    modifies m, m.ram
    ensures WellMapped(m, pd)
    ensures ok <==> (old(HasTable(m, pd, vaddr / PAGE_SIZE)) || old(m.freeCount) > 0)
    ensures ok ==> HasTable(m, pd, vaddr / PAGE_SIZE)
    ensures ok ==> vaddr / PAGE_SIZE in Mapping(m, pd) && Mapping(m, pd)[vaddr / PAGE_SIZE] == PageBase(paddr) + flags
    ensures ok ==> EntryOf(m, pd, vaddr) == PageBase(paddr) + flags
    ensures m.freeCount == old(m.freeCount) - if ok && !old(HasTable(m, pd, vaddr / PAGE_SIZE)) then 1 else 0
    ensures m.Free() + Tables(Directory(m, pd)) == old(m.Free() + Tables(Directory(m, pd)))
    ensures m.Free() <= old(m.Free())
    ensures forall d | 0 <= d < ENTRIES && (d != vaddr / PAGE_SIZE / ENTRIES || !ok) ::
              Directory(m, pd)[d] == old(Directory(m, pd))[d]
    ensures SlotsKept(old(Directory(m, pd)), Directory(m, pd))
    ensures KeepsOthers(old(Mapping(m, pd)), Mapping(m, pd), {vaddr / PAGE_SIZE})
  {
    hide WellFormed, Pages, Sum, Threaded, Tables, SlotsKept, EntryOf;
    ghost var before := Mapping(m, pd);
    var pdIndex := vaddr / 0x40_0000;
    assert pdIndex == vaddr / PAGE_SIZE / ENTRIES;
    ok := EnsureTable(m, pageDir, pdIndex, pd);
    assert KeepsOthers(before, Mapping(m, pd), {});
    if ok {
      SetEntry(m, vaddr, PageBase(paddr) + flags, pd);
    }
  }

  /** The directory slots without a table among those of `count` pages from `vp`. */
  ghost function Missing(dir: seq<Word>, vp: nat, count: nat): set<nat>
    requires |dir| == ENTRIES && vp + count <= PAGES
  {
    if count == 0 then {}
    else
      var d := (vp + count - 1) / ENTRIES;
      Missing(dir, vp, count - 1) + if Present(dir[d]) then {} else {d}
  }

  lemma MissingStep(dir: seq<Word>, vp: nat, i: nat)
    requires |dir| == ENTRIES && vp + i + 1 <= PAGES
    ensures Missing(dir, vp, i + 1) ==
            Missing(dir, vp, i) + if Present(dir[(vp + i) / ENTRIES]) then {} else {(vp + i) / ENTRIES}
  {}

  lemma {:induction false} MissingGrows(dir: seq<Word>, vp: nat, i: nat, count: nat)
    requires |dir| == ENTRIES && i <= count && vp + count <= PAGES
    ensures Missing(dir, vp, i) <= Missing(dir, vp, count)
  {
    if i < count { MissingGrows(dir, vp, i, count - 1); }
  }

  /** The slots in `missing` have been filled, and no others. */
  ghost predicate Filled(dir: seq<Word>, now: seq<Word>, missing: set<nat>) {
    |now| == |dir| && forall d | 0 <= d < |dir| :: Present(now[d]) <==> Present(dir[d]) || d in missing
  }

  lemma FillStep(dir: seq<Word>, now: seq<Word>, now': seq<Word>, vp: nat, i: nat)
    requires |dir| == |now| == |now'| == ENTRIES && vp + i + 1 <= PAGES
    requires Filled(dir, now, Missing(dir, vp, i))
    requires Present(now'[(vp + i) / ENTRIES])
    requires forall d | 0 <= d < ENTRIES && d != (vp + i) / ENTRIES :: Present(now'[d]) == Present(now[d])
    ensures Filled(dir, now', Missing(dir, vp, i + 1))
    ensures |Missing(dir, vp, i + 1)| == |Missing(dir, vp, i)| + if Present(now[(vp + i) / ENTRIES]) then 0 else 1
  {
    hide Missing;
    MissingStep(dir, vp, i);
    var d := (vp + i) / ENTRIES;
    assert Missing(dir, vp, i + 1) == Missing(dir, vp, i) + if Present(now[d]) then {} else {d};
  }

  /** When the next slot is empty, the whole range lacks at least one more table. */
  lemma OneMoreMissing(dir: seq<Word>, now: seq<Word>, vp: nat, i: nat, count: nat)
    requires |dir| == |now| == ENTRIES && i < count && vp + count <= PAGES
    requires Filled(dir, now, Missing(dir, vp, i)) && !Present(now[(vp + i) / ENTRIES])
    ensures |Missing(dir, vp, i)| < |Missing(dir, vp, i + 1)| <= |Missing(dir, vp, count)|
  {
    hide Missing;
    MissingStep(dir, vp, i);
    MissingGrows(dir, vp, i + 1, count);
    SubsetSize(Missing(dir, vp, i + 1), Missing(dir, vp, count));
  }

  lemma SubsetSize(a: set<nat>, b: set<nat>)
    requires a <= b
    ensures |a| <= |b|
  {
    assert b == a + (b - a);
  }

  /** Stepping an address by whole pages commutes with dropping the offset and with wrapping. */
  lemma PageStep(paddr: Word, i: nat)
    ensures PageBase(Wrap(paddr + i * PAGE_SIZE)) == Wrap(PageBase(paddr) + i * PAGE_SIZE)
    ensures Wrap(Wrap(paddr + i * PAGE_SIZE) + PAGE_SIZE) == Wrap(paddr + (i + 1) * PAGE_SIZE)
  {
    hide Wrap;
    WrapPage(paddr + i * PAGE_SIZE);
    WrapAdd(PAGE_SIZE, paddr + i * PAGE_SIZE);
    OffsetOf(paddr / PAGE_SIZE + i, paddr % PAGE_SIZE);
  }

  lemma OffsetOf(page: nat, offset: nat)
    requires offset < PAGE_SIZE
    ensures (page * PAGE_SIZE + offset) % PAGE_SIZE == offset
  {}

  lemma WrapPage(x: nat)
    ensures PageBase(Wrap(x)) == Wrap(x - x % PAGE_SIZE)
  {
    hide Wrap;
    Unwrapped(x);
    var w, q := Wrap(x), x / WORD_LIMIT;
    assert x == (q * 0x10_0000 + w / PAGE_SIZE) * PAGE_SIZE + w % PAGE_SIZE;
    OffsetOf(q * 0x10_0000 + w / PAGE_SIZE, w % PAGE_SIZE);
    WrapMany(w - w % PAGE_SIZE, q);
    NoWrap(w - w % PAGE_SIZE);
  }

  lemma Unwrapped(x: nat)
    ensures x == x / WORD_LIMIT * WORD_LIMIT + Wrap(x)
  {}

  lemma NextPage(v: Word)
    ensures v / PAGE_SIZE + 1 < PAGES ==> Wrap(v + PAGE_SIZE) / PAGE_SIZE == v / PAGE_SIZE + 1
  {}

  /** `count` pages from `vp` are mapped to consecutive frames from the address `base`. */
  ghost predicate Maps(mp: map<nat, Word>, vp: nat, base: Word, count: nat, flags: Word) {
    forall v | vp <= v < vp + count :: v in mp && mp[v] == Wrap(base + (v - vp) * PAGE_SIZE) + flags
  }

  lemma NothingDone(dir: seq<Word>, mp: map<nat, Word>, vp: nat, base: Word, flags: Word)
    requires |dir| == ENTRIES && vp <= PAGES
    ensures Filled(dir, dir, Missing(dir, vp, 0)) && |Missing(dir, vp, 0)| == 0 && SlotsKept(dir, dir)
    ensures Maps(mp, vp, base, 0, flags) && KeepsOthers(mp, mp, Range(vp, 0))
  {}

  lemma MapStep(a: map<nat, Word>, b: map<nat, Word>, c: map<nat, Word>, vp: nat, base: Word, i: nat, flags: Word)
    requires KeepsOthers(a, b, Range(vp, i)) && KeepsOthers(b, c, {vp + i})
    requires Maps(b, vp, base, i, flags)
    requires vp + i in c && c[vp + i] == Wrap(base + i * PAGE_SIZE) + flags
    ensures KeepsOthers(a, c, Range(vp, i + 1)) && Maps(c, vp, base, i + 1, flags)
  {
    hide Wrap;
  }

  lemma StillMaps(b: map<nat, Word>, c: map<nat, Word>, vp: nat, base: Word, i: nat, flags: Word)
    requires Maps(b, vp, base, i, flags) && KeepsOthers(b, c, {vp + i})
    ensures Maps(c, vp, base, i, flags)
  {
    hide Wrap;
  }

  lemma KeepsMore(a: map<nat, Word>, b: map<nat, Word>, c: map<nat, Word>, vp: nat, i: nat, count: nat)
    requires KeepsOthers(a, b, Range(vp, i)) && KeepsOthers(b, c, {vp + i}) && i < count
    ensures KeepsOthers(a, c, Range(vp, count))
  {}

  /** `get_physaddr` as a function of the tables in memory. */
  ghost function Translate(m: PhysMemory, pd: nat, vaddr: Word): nat
    requires m.Sized() && pd < PAGES
    reads m.ram
  {
    Through(Pte(m, pd, vaddr / PAGE_SIZE), vaddr)
  }

  /** The physical address that a page-table entry gives `vaddr`. */
  ghost function Through(entry: Word, vaddr: Word): nat { Addr(FrameOf(entry)) + vaddr % PAGE_SIZE }

  /** Every address of the `count` pages from `vp` translates to the one as far behind `base`. */
  ghost predicate Translated(m: PhysMemory, pd: nat, vp: nat, base: Word, count: nat)
    requires m.Sized() && pd < PAGES
    reads m.ram
  {
    forall va: Word | Addr(vp) <= va < Addr(vp + count) :: Translate(m, pd, va) == Wrap(base + (va - Addr(vp)))
  }

  /** Outside `changed`, every address of a page that had a table translates as before. */
  ghost predicate KeepsTranslations(before: map<nat, Word>, m: PhysMemory, pd: nat, changed: set<nat>)
    requires m.Sized() && pd < PAGES
    reads m.ram
  {
    forall va: Word | va / PAGE_SIZE in before && va / PAGE_SIZE !in changed ::
      Translate(m, pd, va) == Through(before[va / PAGE_SIZE], va)
  }

  /** After a successful `map_pages`, `get_physaddr` answers the mapped address, offset and all. */
  lemma MapsTranslate(m: PhysMemory, pd: nat, vp: nat, base: Word, count: nat, flags: Word, va: Word)
    requires m.Sized() && pd < PAGES && vp + count <= PAGES && base % PAGE_SIZE == 0 && flags < PAGE_SIZE
    requires Maps(Mapping(m, pd), vp, base, count, flags)
    requires Addr(vp) <= va < Addr(vp + count)
    ensures Translate(m, pd, va) == Wrap(base + (va - Addr(vp)))
  {
    var v := va / PAGE_SIZE;
    assert Pte(m, pd, v) == Mapping(m, pd)[v] == Wrap(base + (v - vp) * PAGE_SIZE) + flags;
    hide Wrap, Mapping, Pte, Directory;
    WholePages(base + (v - vp) * PAGE_SIZE, va % PAGE_SIZE, flags);
  }

  lemma WholePages(x: nat, offset: nat, flags: nat)
    requires x % PAGE_SIZE == 0 && offset < PAGE_SIZE && flags < PAGE_SIZE
    ensures Addr((Wrap(x) + flags) / PAGE_SIZE) + offset == Wrap(x + offset)
  {
    hide Wrap;
    WrapPage(x);
    var w := Wrap(x);
    assert w % PAGE_SIZE == 0 && w == w / PAGE_SIZE * PAGE_SIZE;
    assert (w + flags) / PAGE_SIZE == w / PAGE_SIZE;
    WrapAdd(offset, x);
    NoWrap(w + offset);
  }

  lemma NoWrap(x: Word)
    ensures Wrap(x) == x
  {}

  lemma AllTranslate(m: PhysMemory, pd: nat, vp: nat, base: Word, count: nat, flags: Word)
    requires m.Sized() && pd < PAGES && vp + count <= PAGES && base % PAGE_SIZE == 0 && flags < PAGE_SIZE
    requires Maps(Mapping(m, pd), vp, base, count, flags)
    ensures Translated(m, pd, vp, base, count)
  {
    hide Maps, Mapping, Translate, Wrap;
    forall va: Word | Addr(vp) <= va < Addr(vp + count)
      ensures Translate(m, pd, va) == Wrap(base + (va - Addr(vp)))
    {
      MapsTranslate(m, pd, vp, base, count, flags, va);
    }
  }

  /** Entries that are kept keep every translation through them. */
  lemma KeptTranslation(m: PhysMemory, pd: nat, before: map<nat, Word>, changed: set<nat>)
    requires m.Sized() && pd < PAGES && KeepsOthers(before, Mapping(m, pd), changed)
    ensures KeepsTranslations(before, m, pd, changed)
  {
    hide Pte, Directory;
    forall va: Word | va / PAGE_SIZE in before && va / PAGE_SIZE !in changed
      ensures Translate(m, pd, va) == Through(before[va / PAGE_SIZE], va)
    {
      assert va / PAGE_SIZE in Mapping(m, pd);
    }
  }

  lemma BaseAligned(addr: Word)
    ensures PageBase(addr) % PAGE_SIZE == 0
  {}

  // ----- access rights

  /** What a page may be used for: the bits set both in its directory entry and in its own. */
  datatype Access = Access(present: bool, writable: bool, user: bool)

  ghost function Rights(slot: Word, entry: Word): Access {
    Access(
      slot % 2 == 1 && entry % 2 == 1,
      slot / 2 % 2 == 1 && entry / 2 % 2 == 1,
      slot / 4 % 2 == 1 && entry / 4 % 2 == 1)
  }

  /** Pages behind a new table have the rights that `flags` give; behind an old one, those of them that
      its directory entry had and has. */
  ghost predicate Grants(m: PhysMemory, pd: nat, dir: seq<Word>, vp: nat, count: nat, flags: Word)
    requires m.Sized() && pd < PAGES && |dir| == ENTRIES && vp + count <= PAGES
    reads m.ram
  {
    forall v | vp <= v < vp + count ::
      Directory(m, pd)[v / ENTRIES] % 2 == 1 &&
      Rights(Directory(m, pd)[v / ENTRIES], Pte(m, pd, v)) ==
      if Present(dir[v / ENTRIES]) then Rights(dir[v / ENTRIES], flags)
      else Access(flags % 2 == 1, flags / 2 % 2 == 1, flags / 4 % 2 == 1)
  }

  /** The rights in an entry are in its last twelve bits. */
  lemma LowBitsOnly(entry: Word, flags: Word)
    ensures entry % 0x1000 == flags % 0x1000 ==>
              entry % 2 == flags % 2 && entry / 2 % 2 == flags / 2 % 2 && entry / 4 % 2 == flags / 4 % 2
  {
    RightsBits(entry / 0x1000, entry % 0x1000);
    RightsBits(flags / 0x1000, flags % 0x1000);
  }

  lemma RightsBits(page: nat, bits: nat)
    ensures var entry := 0x1000 * page + bits;
            entry % 2 == bits % 2 && entry / 2 % 2 == bits / 2 % 2 && entry / 4 % 2 == bits / 4 % 2
  {
    Halve(0x800 * page, bits);
    Halve(0x400 * page, bits / 2);
    Halve(0x200 * page, bits / 4);
    Quarter(0x1000 * page + bits);
    Quarter(bits);
  }

  lemma Halve(a: nat, b: nat)
    ensures (2 * a + b) % 2 == b % 2 && (2 * a + b) / 2 == a + b / 2
  {}

  lemma Quarter(x: nat)
    ensures x / 4 == x / 2 / 2
  {}

  lemma EntryBits(base: nat, flags: Word)
    requires base % PAGE_SIZE == 0 && flags < PAGE_SIZE
    ensures (Wrap(base) + flags) % 0x1000 == flags
  {
    hide Wrap;
    WrapPage(base);
    assert Wrap(base) == Wrap(base) / PAGE_SIZE * PAGE_SIZE;
    OffsetOf(Wrap(base) / PAGE_SIZE, flags);
  }

  lemma PageGranted(slot: Word, now: Word, entry: Word, flags: Word)
    requires if Present(slot) then now == slot else now % 0x1000 == 7
    requires entry % 0x1000 == flags % 0x1000
    ensures Rights(now, entry) ==
            if Present(slot) then Rights(slot, flags)
            else Access(flags % 2 == 1, flags / 2 % 2 == 1, flags / 4 % 2 == 1)
  {
    LowBitsOnly(entry, flags);
    LowBitsOnly(now, 7);
  }

  lemma AllGranted(m: PhysMemory, pd: nat, dir: seq<Word>, vp: nat, base: Word, count: nat, flags: Word)
    requires m.Sized() && pd < PAGES && |dir| == ENTRIES && vp + count <= PAGES
    requires base % PAGE_SIZE == 0 && flags < PAGE_SIZE
    requires Maps(Mapping(m, pd), vp, base, count, flags) && SlotsKept(dir, Directory(m, pd))
    ensures Grants(m, pd, dir, vp, count, flags)
  {
    hide Directory, Pte, Wrap, Rights;
    forall v: nat | vp <= v < vp + count
      ensures Directory(m, pd)[v / ENTRIES] % 2 == 1
      ensures Rights(Directory(m, pd)[v / ENTRIES], Pte(m, pd, v)) ==
              if Present(dir[v / ENTRIES]) then Rights(dir[v / ENTRIES], flags)
              else Access(flags % 2 == 1, flags / 2 % 2 == 1, flags / 4 % 2 == 1)
    {
      assert v in Mapping(m, pd) && Pte(m, pd, v) == Wrap(base + (v - vp) * PAGE_SIZE) + flags;
      EntryBits(base + (v - vp) * PAGE_SIZE, flags);
      PageGranted(dir[v / ENTRIES], Directory(m, pd)[v / ENTRIES], Pte(m, pd, v), flags);
    }
  }

  /** What `map_pages` started from. */
  datatype Job = Job(dir: seq<Word>, mapped: map<nat, Word>, free: set<nat>, freeCount: nat,
                     vp: nat, paddr: Word, count: nat, flags: Word)

  /** The first `i` pages of the job are mapped. */
  ghost predicate Progress(m: PhysMemory, pd: nat, job: Job, i: nat)
    reads m, m.ram
  {
    && WellMapped(m, pd)
    && i <= job.count && job.vp + job.count <= PAGES && job.flags < PAGE_SIZE && |job.dir| == ENTRIES
    && m.freeCount == job.freeCount - |Missing(job.dir, job.vp, i)|
    && Filled(job.dir, Directory(m, pd), Missing(job.dir, job.vp, i))
    && m.Free() + Tables(Directory(m, pd)) == job.free + Tables(job.dir)
    && SlotsKept(job.dir, Directory(m, pd)) && m.Free() <= job.free
    && Maps(Mapping(m, pd), job.vp, PageBase(job.paddr), i, job.flags)
    && KeepsOthers(job.mapped, Mapping(m, pd), Range(job.vp, i))
  }

  /** One turn of the loop of `map_pages` keeps it on course, or shows that a table is out of reach. */
  method MapNext(
    m: PhysMemory, pageDir: Word, v: Word, p: Word, flags: Word, ghost pd: nat, ghost job: Job, ghost i: nat)
    returns (ok: bool)
    requires Progress(m, pd, job, i) && i < job.count && pageDir == Addr(pd)
    requires v / PAGE_SIZE == job.vp + i && p == Wrap(job.paddr + i * PAGE_SIZE) && flags == job.flags
    modifies m, m.ram
    ensures ok ==> Progress(m, pd, job, i + 1)
    ensures !ok ==>
      && WellMapped(m, pd) && m.freeCount == 0 && |Missing(job.dir, job.vp, job.count)| > job.freeCount
      && m.Free() + Tables(Directory(m, pd)) == job.free + Tables(job.dir) && m.Free() <= job.free
      && KeepsOthers(job.mapped, Mapping(m, pd), Range(job.vp, job.count))
      && Maps(Mapping(m, pd), job.vp, PageBase(job.paddr), i, job.flags)
      && SlotsKept(job.dir, Directory(m, pd)) && Filled(job.dir, Directory(m, pd), Missing(job.dir, job.vp, i))
      && |Missing(job.dir, job.vp, i)| == job.freeCount < |Missing(job.dir, job.vp, i + 1)|
  {
    hide WellFormed, Pages, Sum, Threaded, Tables, Separate, PageBase, Wrap, Range,
      Directory, Missing, Filled, KeepsOthers, Maps, Mapping, SlotsKept;
    PageStep(job.paddr, i);
    ghost var now, mapped := Directory(m, pd), Mapping(m, pd);
    ok := MapPage(m, pageDir, v, p, flags, pd);
    SlotsStillKept(job.dir, now, Directory(m, pd));
    if ok {
      FillStep(job.dir, now, Directory(m, pd), job.vp, i);
      MapStep(job.mapped, mapped, Mapping(m, pd), job.vp, PageBase(job.paddr), i, flags);
    } else {
      assert Directory(m, pd) == now;
      OneMoreMissing(job.dir, now, job.vp, i, job.count);
      KeepsMore(job.mapped, mapped, Mapping(m, pd), job.vp, i, job.count);
      StillMaps(mapped, Mapping(m, pd), job.vp, PageBase(job.paddr), i, flags);
    }
  }

  /** `map_pages`: succeeds exactly when there are free pages for all the tables it lacks; the first
      `done` pages are mapped, which is all of them on success. */
  method MapPages(m: PhysMemory, pageDir: Word, vaddr: Word, paddr: Word, count: Word, flags: Word, ghost pd: nat)
    returns (ok: bool, ghost done: nat)
    requires WellMapped(m, pd) && pageDir == Addr(pd) && flags < PAGE_SIZE
    requires vaddr / PAGE_SIZE + count <= PAGES
    modifies m, m.ram
    ensures WellMapped(m, pd)
    ensures ok <==> |Missing(old(Directory(m, pd)), vaddr / PAGE_SIZE, count)| <= old(m.freeCount)
    ensures m.freeCount ==
            if ok then old(m.freeCount) - |Missing(old(Directory(m, pd)), vaddr / PAGE_SIZE, count)| else 0
    ensures done <= count && (ok <==> done == count)
    ensures Maps(Mapping(m, pd), vaddr / PAGE_SIZE, PageBase(paddr), done, flags)
    ensures Filled(old(Directory(m, pd)), Directory(m, pd), Missing(old(Directory(m, pd)), vaddr / PAGE_SIZE, done))
    ensures !ok ==>
              && |Missing(old(Directory(m, pd)), vaddr / PAGE_SIZE, done)| == old(m.freeCount)
              && |Missing(old(Directory(m, pd)), vaddr / PAGE_SIZE, done + 1)| > old(m.freeCount)
    ensures m.Free() + Tables(Directory(m, pd)) == old(m.Free() + Tables(Directory(m, pd)))
    ensures m.Free() <= old(m.Free())
    ensures KeepsOthers(old(Mapping(m, pd)), Mapping(m, pd), Range(vaddr / PAGE_SIZE, count))
    ensures Translated(m, pd, vaddr / PAGE_SIZE, PageBase(paddr), done)
    ensures KeepsTranslations(old(Mapping(m, pd)), m, pd, Range(vaddr / PAGE_SIZE, count))
    ensures SlotsKept(old(Directory(m, pd)), Directory(m, pd))
    ensures Grants(m, pd, old(Directory(m, pd)), vaddr / PAGE_SIZE, done, flags)
  {
    hide WellFormed, Pages, Sum, Threaded, Tables, Separate, PageBase, Range,
      Directory, Missing, Filled, KeepsOthers, Maps, Mapping, Translated, KeepsTranslations, SlotsKept, Grants;
    ghost var job :=
      Job(Directory(m, pd), Mapping(m, pd), m.Free(), m.freeCount, vaddr / PAGE_SIZE, paddr, count, flags);
    BaseAligned(paddr);
    NothingDone(job.dir, job.mapped, job.vp, PageBase(paddr), flags);
    var v: Word, p: Word, left: Word := vaddr, paddr, count;
    ghost var i: nat := 0;
    while left != 0
      invariant i + left == count && Progress(m, pd, job, i)
      invariant left != 0 ==> v / PAGE_SIZE == job.vp + i
      invariant p == Wrap(paddr + i * PAGE_SIZE)
    {
      hide Progress, Wrap, WellMapped;
      PageStep(paddr, i);
      NextPage(v);
      ok := MapNext(m, pageDir, v, p, flags, pd, job, i);
      if !ok {
        AllTranslate(m, pd, job.vp, PageBase(paddr), i, flags);
        AllGranted(m, pd, job.dir, job.vp, PageBase(paddr), i, flags);
        KeptTranslation(m, pd, job.mapped, Range(job.vp, count));
        return false, i;
      }
      v := Wrap(v + PAGE_SIZE);
      p := Wrap(p + PAGE_SIZE);
      left, i := left - 1, i + 1;
    }
    AllTranslate(m, pd, job.vp, PageBase(paddr), i, flags);
    AllGranted(m, pd, job.dir, job.vp, PageBase(paddr), i, flags);
    KeptTranslation(m, pd, job.mapped, Range(job.vp, count));
    ok, done := true, i;
  }

  ghost predicate Cleared(mp: map<nat, Word>, vp: nat, count: nat) {
    forall v | vp <= v < vp + count :: v in mp && mp[v] == 0
  }

  /** One turn of the loop of `unmap_pages`. */
  method UnmapPage(m: PhysMemory, pageDir: Word, vaddr: Word, ghost pd: nat) returns (ok: bool)
    requires WellMapped(m, pd) && pageDir == Addr(pd)
    modifies m`window, m.ram
    ensures WellMapped(m, pd) && Directory(m, pd) == old(Directory(m, pd))
    ensures ok <==> HasTable(m, pd, vaddr / PAGE_SIZE)
    ensures ok <==> Directory(m, pd)[vaddr / 0x40_0000] % 2 == 1
    ensures ok ==> vaddr / PAGE_SIZE in Mapping(m, pd) && Mapping(m, pd)[vaddr / PAGE_SIZE] == 0
    ensures ok ==> EntryOf(m, pd, vaddr) == 0
    ensures KeepsOthers(old(Mapping(m, pd)), Mapping(m, pd), {vaddr / PAGE_SIZE})
  {
    hide WellFormed, Pages, Sum, Threaded, Separate, EntryOf, Mapping;
    var pdIndex := vaddr / 0x40_0000;
    assert pdIndex == vaddr / PAGE_SIZE / ENTRIES;
    m.TempMapPage(pageDir);
    var pageTable := m.ram[m.window, pdIndex];
    assert pageTable == Directory(m, pd)[pdIndex];
    if !Present(pageTable) {
      return false;
    }
    SetEntry(m, vaddr, 0, pd);
    ok := true;
  }

  lemma ClearStep(a: map<nat, Word>, b: map<nat, Word>, c: map<nat, Word>, vp: nat, i: nat)
    requires KeepsOthers(a, b, Range(vp, i)) && KeepsOthers(b, c, {vp + i}) && Cleared(b, vp, i)
    requires vp + i in c && c[vp + i] == 0
    ensures KeepsOthers(a, c, Range(vp, i + 1)) && Cleared(c, vp, i + 1)
  {}

  lemma StillCleared(b: map<nat, Word>, c: map<nat, Word>, vp: nat, i: nat)
    requires KeepsOthers(b, c, {vp + i}) && Cleared(b, vp, i)
    ensures Cleared(c, vp, i)
  {}

  /** `unmap_pages`: succeeds exactly when every page of the range has a table; the first `done`
      pages are cleared, which is all of them on success. */
  method UnmapPages(m: PhysMemory, pageDir: Word, vaddr: Word, count: Word, ghost pd: nat)
    returns (ok: bool, ghost done: nat)
    requires WellMapped(m, pd) && pageDir == Addr(pd)
    requires vaddr / PAGE_SIZE + count <= PAGES
    modifies m`window, m.ram
    ensures WellMapped(m, pd) && Directory(m, pd) == old(Directory(m, pd))
    ensures ok <==> forall v | vaddr / PAGE_SIZE <= v < vaddr / PAGE_SIZE + count :: HasTable(m, pd, v)
    ensures done <= count && (ok <==> done == count) && Cleared(Mapping(m, pd), vaddr / PAGE_SIZE, done)
    ensures !ok ==> !HasTable(m, pd, vaddr / PAGE_SIZE + done)
    ensures KeepsOthers(old(Mapping(m, pd)), Mapping(m, pd), Range(vaddr / PAGE_SIZE, count))
    ensures KeepsTranslations(old(Mapping(m, pd)), m, pd, Range(vaddr / PAGE_SIZE, count))
  {
    hide WellFormed, Pages, Sum, Threaded, Separate, Mapping, KeepsTranslations;
    ghost var vp, dir, before := vaddr / PAGE_SIZE, Directory(m, pd), Mapping(m, pd);
    var v: Word, left: Word := vaddr, count;
    ghost var i: nat := 0;
    while left != 0
      invariant i + left == count && WellMapped(m, pd) && Directory(m, pd) == dir
      invariant left != 0 ==> v / PAGE_SIZE == vp + i
      invariant forall u | vp <= u < vp + i :: InSlot(dir, u)
      invariant Cleared(Mapping(m, pd), vp, i)
      invariant KeepsOthers(before, Mapping(m, pd), Range(vp, i))
    {
      hide WellMapped, Cleared, KeepsOthers, Wrap, Range;
      NextPage(v);
      ghost var mapped := Mapping(m, pd);
      ok := UnmapPage(m, pageDir, v, pd);
      if !ok {
        KeepsMore(before, mapped, Mapping(m, pd), vp, i, count);
        StillCleared(mapped, Mapping(m, pd), vp, i);
        KeptTranslation(m, pd, before, Range(vp, count));
        return false, i;
      }
      ClearStep(before, mapped, Mapping(m, pd), vp, i);
      v := Wrap(v + PAGE_SIZE);
      left, i := left - 1, i + 1;
    }
    KeptTranslation(m, pd, before, Range(vp, count));
    ok, done := true, i;
  }
}
