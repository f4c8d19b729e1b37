/** Runs of `alloc_virt_pages` and `free_virt_pages`: who holds each frame at every point, whatever
    the order of the calls (kernel/memory_manager.c). */
module SpaceRuns {
  import opened Words
  import opened FreeList
  import Threads
  import opened PhysMem
  import opened Paging
  import opened BlockTables
  import opened Gaps
  import opened VirtTable
  import opened Ownership
  import opened VirtMemory

  /** The blocks of an address space, the places a frame can be in, and the page-table entries. */
  datatype Books = Books(
    live: seq<Entry>, owner: Owners, anon: set<Word>, free: set<nat>, tables: set<nat>, entries: map<nat, Word>)

  /** `alloc_virt_pages` for fresh frames or for given ones, and `free_virt_pages`. */
  datatype Call = Alloc(count: Word, flags: Word) | Point(paddr: Word, count: Word, flags: Word) | Release(vaddr: Word)

  ghost function PagesAt(vaddr: Word, count: Word): set<nat> { Range(vaddr / PAGE_SIZE, count) }

  ghost function FramesOf(owner: Owners, pages: set<nat>): set<nat> { set v | v in pages && v in owner :: owner[v] }

  /** Each owned page has a table, and its entry names its frame. */
  ghost predicate Mapped(owner: Owners, entries: map<nat, Word>) {
    forall v | v in owner :: v in entries && FrameOf(entries[v]) == owner[v]
  }

  /** The block table is in order, the owned pages are those of the anonymous blocks and mapped to
      their frames, and each managed frame is accounted for without being shared. */
  ghost predicate InOrder(b: Books, managed: set<nat>, start: Word, end: Word) {
    && BlocksOk(b.live, start, end, b.owner, b.anon) && Mapped(b.owner, b.entries)
    && Apart(b.owner, b.free, b.tables) && Accounted(managed, b.owner, b.free, b.tables)
  }

  /** Apart from the frames `taken`, frames only move from the free pages to the page tables. */
  ghost predicate Spent(b: Books, b': Books, taken: set<nat>) {
    && b'.free + b'.tables == (b.free + b.tables) - taken
    && b'.free !! b'.tables && b.tables <= b'.tables
  }

  /** What the contracts of `AllocVirtPages` and `FreeVirtPages` say about one call. The answer is the
      address of the new block, or the number of pages released. */
  ghost predicate Step(b: Books, call: Call, answer: Word, b': Books, start: Word, end: Word) {
    match call
    case Alloc(count, flags) =>
      && 0 < count && flags < PAGE_SIZE && (exists k :: Placed(b.live, b'.live, k, answer, count, start, end))
      && b'.anon == b.anon + {answer} && Extends(b.owner, b'.owner, PagesAt(answer, count))
      && Descending(b'.owner, PagesAt(answer, count), b.free)
      && Spent(b, b', FramesOf(b'.owner, PagesAt(answer, count)))
      && Backed(b'.entries, b'.owner, PagesAt(answer, count), flags)
      && KeepsOthers(b.entries, b'.entries, PagesAt(answer, count))
    case Point(paddr, count, flags) =>
      && 0 < count && (exists k :: Placed(b.live, b'.live, k, answer, count, start, end))
      && b'.anon == b.anon && b'.owner == b.owner && Spent(b, b', {})
      && Maps(b'.entries, answer / PAGE_SIZE, PageBase(paddr), count, flags)
      && KeepsOthers(b.entries, b'.entries, PagesAt(answer, count))
    case Release(vaddr) =>
      && vaddr in b.anon && (exists k :: Deleted(b.live, b'.live, k, vaddr, answer))
      && b'.anon == b.anon - {vaddr} && b'.owner == b.owner - PagesAt(vaddr, answer)
      && b'.free == b.free + FramesOf(b.owner, PagesAt(vaddr, answer)) && b'.tables == b.tables
      && Cleared(b'.entries, vaddr / PAGE_SIZE, answer)
      && KeepsOthers(b.entries, b'.entries, PagesAt(vaddr, answer))
  }

  // ----- one step

  lemma AllocKeepsFrames(b: Books, b': Books, managed: set<nat>, pages: set<nat>)
    requires Apart(b.owner, b.free, b.tables) && Accounted(managed, b.owner, b.free, b.tables)
    requires pages !! b.owner.Keys && Extends(b.owner, b'.owner, pages) && Descending(b'.owner, pages, b.free)
    requires Spent(b, b', FramesOf(b'.owner, pages))
    ensures Apart(b'.owner, b'.free, b'.tables) && Accounted(managed, b'.owner, b'.free, b'.tables)
  {
    HoldsExtended(b.owner, b'.owner, pages);
    forall v | v in b'.owner ensures b'.owner[v] !in b'.free + b'.tables {
      if v in pages { assert b'.owner[v] in FramesOf(b'.owner, pages); }
    }
    forall u, v | u in b'.owner && v in b'.owner && u != v ensures b'.owner[u] != b'.owner[v] {
      assert u < v || v < u;
    }
    forall p ensures p in managed <==> p in b'.free || p in b'.tables || Holds(b'.owner, p) {
      assert p in b'.free + b'.tables <==> p in b.free + b.tables && p !in FramesOf(b'.owner, pages);
    }
  }

  lemma HoldsExtended(owner: Owners, owner': Owners, pages: set<nat>)
    requires Extends(owner, owner', pages)
    ensures forall p :: Holds(owner', p) <==> Holds(owner, p) || p in FramesOf(owner', pages)
  {
    forall p ensures Holds(owner', p) <==> Holds(owner, p) || p in FramesOf(owner', pages) {
      if v :| v in owner && owner[v] == p { assert owner'[v] == p; }
    }
  }

  lemma ReleaseKeepsFrames(b: Books, b': Books, managed: set<nat>, pages: set<nat>)
    requires Apart(b.owner, b.free, b.tables) && Accounted(managed, b.owner, b.free, b.tables)
    requires b'.owner == b.owner - pages && b'.free == b.free + FramesOf(b.owner, pages) && b'.tables == b.tables
    ensures Apart(b'.owner, b'.free, b'.tables) && Accounted(managed, b'.owner, b'.free, b'.tables)
  {
    forall p ensures Holds(b.owner, p) <==> Holds(b'.owner, p) || p in FramesOf(b.owner, pages) {
      if v :| v in b.owner && b.owner[v] == p && v !in pages { assert b'.owner[v] == p; }
    }
  }

  lemma AllocKeepsMapped(b: Books, b': Books, pages: set<nat>, flags: Word)
    requires Mapped(b.owner, b.entries) && pages !! b.owner.Keys && Extends(b.owner, b'.owner, pages)
    requires KeepsOthers(b.entries, b'.entries, pages) && flags < PAGE_SIZE
    requires Backed(b'.entries, b'.owner, pages, flags)
    ensures Mapped(b'.owner, b'.entries)
  {
    forall v | v in b'.owner ensures v in b'.entries && FrameOf(b'.entries[v]) == b'.owner[v] {
      if v in pages { FrameBelowFlags(b'.owner[v], flags); } else { assert v in b.owner; }
    }
  }

  lemma FrameBelowFlags(f: nat, flags: Word)
    requires flags < PAGE_SIZE && Threads.Addr(f) + flags < WORD_LIMIT
    ensures FrameOf(Threads.Addr(f) + flags) == f
  {}

  lemma OthersKeepMapped(b: Books, b': Books, pages: set<nat>)
    requires Mapped(b.owner, b.entries) && KeepsOthers(b.entries, b'.entries, pages)
    requires b'.owner.Keys !! pages && forall v | v in b'.owner :: v in b.owner && b'.owner[v] == b.owner[v]
    ensures Mapped(b'.owner, b'.entries)
  {}

  lemma StepKeepsOrder(
    b: Books, call: Call, answer: Word, b': Books, managed: set<nat>, start: Word, end: Word)
    requires InOrder(b, managed, start, end) && start % PAGE_SIZE == 0 && Step(b, call, answer, b', start, end)
    ensures InOrder(b', managed, start, end)
  {
    hide BlocksOk, Apart, Accounted, Placed, Deleted, Extends, Descending, Mapped, KeepsOthers, Backed, Maps, Cleared;
    match call
    case Alloc(count, flags) =>
      var k :| Placed(b.live, b'.live, k, answer, count, start, end);
      NewBlock(b.live, b'.live, k, answer, count, start, end, b.owner, b.anon);
      BlockOwned(b.live, b'.live, k, answer, count, start, end, b.owner, b'.owner, b.anon);
      AllocKeepsFrames(b, b', managed, PagesAt(answer, count));
      AllocKeepsMapped(b, b', PagesAt(answer, count), flags);
    case Point(_, count, _) =>
      var k :| Placed(b.live, b'.live, k, answer, count, start, end);
      NewBlock(b.live, b'.live, k, answer, count, start, end, b.owner, b.anon);
      BlockFixed(b.live, b'.live, k, answer, count, start, end, b.owner, b.anon);
      PointKeepsFrames(b, b', managed);
      OthersKeepMapped(b, b', PagesAt(answer, count));
    case Release(vaddr) =>
      var k :| Deleted(b.live, b'.live, k, vaddr, answer);
      OldBlock(b.live, b'.live, k, vaddr, answer, start, end, b.owner, b.anon);
      ReleaseKeepsFrames(b, b', managed, PagesAt(vaddr, answer));
      OthersKeepMapped(b, b', PagesAt(vaddr, answer));
  }

  lemma PointKeepsFrames(b: Books, b': Books, managed: set<nat>)
    requires Apart(b.owner, b.free, b.tables) && Accounted(managed, b.owner, b.free, b.tables)
    requires b'.owner == b.owner && Spent(b, b', {})
    ensures Apart(b'.owner, b'.free, b'.tables) && Accounted(managed, b'.owner, b'.free, b'.tables)
  {
    assert forall p :: p in b'.free + b'.tables <==> p in b.free + b.tables;
  }

  // ----- runs

  /** The books before, between and after the calls. */
  ghost predicate IsRun(books: seq<Books>, calls: seq<Call>, answers: seq<Word>, start: Word, end: Word) {
    && |books| == |calls| + 1 && |answers| == |calls| && start % PAGE_SIZE == 0
    && forall i | 0 <= i < |calls| :: Step(books[i], calls[i], answers[i], books[i + 1], start, end)
  }

  lemma {:induction false} RunKeepsOrder(
    books: seq<Books>, calls: seq<Call>, answers: seq<Word>, managed: set<nat>, start: Word, end: Word, i: nat)
    requires IsRun(books, calls, answers, start, end) && InOrder(books[0], managed, start, end) && i < |books|
    ensures InOrder(books[i], managed, start, end)
  {
    hide InOrder, Step;
    if i > 0 {
      RunKeepsOrder(books, calls, answers, managed, start, end, i - 1);
      StepKeepsOrder(books[i - 1], calls[i - 1], answers[i - 1], books[i], managed, start, end);
    }
  }

  /** At every point of every run each managed frame is in exactly one place: free, a page table, or
      behind one page, and that page lies in exactly one live block. */
  lemma OnePlaceAtEveryPoint(
    books: seq<Books>, calls: seq<Call>, answers: seq<Word>, managed: set<nat>, start: Word, end: Word, i: nat, p: nat)
    requires IsRun(books, calls, answers, start, end) && InOrder(books[0], managed, start, end)
    requires i < |books| && p in managed
    ensures var b := books[i];
            && (if p in b.free then 1 else 0) + (if p in b.tables then 1 else 0)
             + |set v | v in b.owner && b.owner[v] == p| == 1
            && forall v | v in b.owner && b.owner[v] == p :: InOneBlock(b.live, b.anon, v)
  {
    hide Step, Apart, Accounted, TableOk;
    RunKeepsOrder(books, calls, answers, managed, start, end, i);
    var b := books[i];
    ExactlyOnePlace(managed, b.owner, b.free, b.tables, p);
    forall v | v in b.owner && b.owner[v] == p ensures InOneBlock(b.live, b.anon, v) {
      assert InBlock(b.live, b.anon, v);
      var j :| 0 <= j < |b.live| && b.live[j].base in b.anon && PageOf(b.live[j], v);
      forall n | 0 <= n < |b.live| && PageOf(b.live[n], v) ensures n == j {
        OneBlock(b.live, start, end, j, n, v);
      }
    }
  }

  lemma {:induction false} HeldCount(owner: Owners)
    requires Injective(owner)
    ensures |FramesOf(owner, owner.Keys)| == |owner|
    decreases owner
  {
    if owner != map[] {
      var v :| v in owner;
      var rest := owner - {v};
      HeldCount(rest);
      forall p ensures p in FramesOf(owner, owner.Keys) <==> p in FramesOf(rest, rest.Keys) + {owner[v]} {
        if u :| u in owner && owner[u] == p && u != v { assert rest[u] == p; }
      }
      assert FramesOf(owner, owner.Keys) == FramesOf(rest, rest.Keys) + {owner[v]};
      assert owner[v] !in FramesOf(rest, rest.Keys);
      assert |owner| == |rest| + 1;
    }
  }

  lemma PlacesAddUp(b: Books, managed: set<nat>)
    requires Apart(b.owner, b.free, b.tables) && Accounted(managed, b.owner, b.free, b.tables)
    ensures |b.free| + |b.tables| + |b.owner| == |managed|
  {
    HeldCount(b.owner);
    var held := FramesOf(b.owner, b.owner.Keys);
    forall p ensures p in managed <==> p in b.free + b.tables + held {
      assert Holds(b.owner, p) <==> p in held;
    }
    assert managed == b.free + b.tables + held;
    assert (b.free + b.tables) !! held;
  }

  /** Free pages, page tables and owned pages together stay the same number over every run, so when
      all anonymous blocks are released again only added page tables are missing. */
  lemma RunConserves(
    books: seq<Books>, calls: seq<Call>, answers: seq<Word>, managed: set<nat>, start: Word, end: Word, i: nat, j: nat)
    requires IsRun(books, calls, answers, start, end) && InOrder(books[0], managed, start, end)
    requires i <= j < |books|
    ensures |books[i].free| + |books[i].tables| + |books[i].owner| ==
            |books[j].free| + |books[j].tables| + |books[j].owner|
    ensures books[i].owner == books[j].owner ==>
              && books[j].free + books[j].tables == books[i].free + books[i].tables
              && books[i].tables <= books[j].tables && books[j].free <= books[i].free
  {
    hide Step, BlocksOk, Apart;
    RunKeepsOrder(books, calls, answers, managed, start, end, i);
    RunKeepsOrder(books, calls, answers, managed, start, end, j);
    PlacesAddUp(books[i], managed);
    PlacesAddUp(books[j], managed);
    TablesGrow(books, calls, answers, start, end, i, j);
    if books[i].owner == books[j].owner {
      forall p ensures p in books[j].free + books[j].tables <==> p in books[i].free + books[i].tables {
        OnlyHeldMissing(books[i], managed, p);
        OnlyHeldMissing(books[j], managed, p);
      }
    }
  }

  lemma OnlyHeldMissing(b: Books, managed: set<nat>, p: nat)
    requires Apart(b.owner, b.free, b.tables) && Accounted(managed, b.owner, b.free, b.tables)
    ensures p in b.free + b.tables <==> p in managed && !Holds(b.owner, p)
  {}

  lemma {:induction false} TablesGrow(
    books: seq<Books>, calls: seq<Call>, answers: seq<Word>, start: Word, end: Word, i: nat, j: nat)
    requires IsRun(books, calls, answers, start, end) && i <= j < |books|
    ensures books[i].tables <= books[j].tables
    decreases j
  {
    if i < j { TablesGrow(books, calls, answers, start, end, i, j - 1); }
  }

  /** No call from the `i`-th to before the `j`-th releases the block of page `v`. */
  ghost predicate NotReleased(calls: seq<Call>, answers: seq<Word>, v: nat, i: nat, j: nat)
    requires j <= |calls| == |answers|
  {
    forall n | i <= n < j && calls[n].Release? :: v !in PagesAt(calls[n].vaddr, answers[n])
  }

  lemma StepKeepsPage(
    b: Books, call: Call, answer: Word, b': Books, managed: set<nat>, start: Word, end: Word, v: nat)
    requires InOrder(b, managed, start, end) && start % PAGE_SIZE == 0 && Step(b, call, answer, b', start, end)
    requires v in b.owner && (call.Release? ==> v !in PagesAt(call.vaddr, answer))
    ensures v in b'.owner && b'.owner[v] == b.owner[v]
    ensures v in b.entries && v in b'.entries && b'.entries[v] == b.entries[v]
  {
    hide BlocksOk, Apart, Accounted, Placed, Deleted, Descending, Spent, Backed, Maps, Cleared;
    if !call.Release? {
      var k :| Placed(b.live, b'.live, k, answer, call.count, start, end);
      NewBlock(b.live, b'.live, k, answer, call.count, start, end, b.owner, b.anon);
    }
  }

  /** A page keeps its frame, its entry and so its rights until its own block is released, whatever
      else is allocated, mapped or released in between. */
  lemma {:induction false} PageKeepsFrame(
    books: seq<Books>, calls: seq<Call>, answers: seq<Word>, managed: set<nat>, start: Word, end: Word,
    v: nat, i: nat, j: nat)
    requires IsRun(books, calls, answers, start, end) && InOrder(books[0], managed, start, end)
    requires i <= j < |books| && v in books[i].owner && NotReleased(calls, answers, v, i, j)
    ensures v in books[j].owner && books[j].owner[v] == books[i].owner[v]
    ensures v in books[i].entries && v in books[j].entries && books[j].entries[v] == books[i].entries[v]
    decreases j
  {
    hide Step, BlocksOk, Apart, Accounted;
    RunKeepsOrder(books, calls, answers, managed, start, end, i);
    if i < j {
      PageKeepsFrame(books, calls, answers, managed, start, end, v, i, j - 1);
      RunKeepsOrder(books, calls, answers, managed, start, end, j - 1);
      StepKeepsPage(books[j - 1], calls[j - 1], answers[j - 1], books[j], managed, start, end, v);
    }
  }

  // ----- the same calls on memory

  ghost function Now(s: AddressSpace): Books
    requires s.Valid()
    reads s, s.phys, s.phys.ram, s.table, s.table.bytes
  {
    OwnedShape(s.phys, s.Pd(), s.managed, s.owner);
    Books(s.table.Live(), s.owner, s.anon, s.phys.Free(), Tables(Directory(s.phys, s.Pd())),
          Mapping(s.phys, s.Pd()))
  }

  lemma NowInOrder(s: AddressSpace)
    requires s.Valid()
    ensures InOrder(Now(s), s.managed, s.start, s.end)
  {
    hide BlocksOk, Accounted, Apart, Mapping, WellMapped, Directory, Tables, Pages;
    OwnedShape(s.phys, s.Pd(), s.managed, s.owner);
  }

  /** What `AllocVirtPages` and `FreeVirtPages` ask of their callers. */
  ghost predicate Servable(s: AddressSpace, call: Call)
    requires s.Valid()
    reads s, s.phys, s.phys.ram, s.table, s.table.bytes
  {
    OwnedShape(s.phys, s.Pd(), s.managed, s.owner);
    match call
    case Alloc(count, flags) => HasRoom(s, count) && PagesSuffice(s, count, count) && flags < PAGE_SIZE
    case Point(paddr, count, flags) =>
      HasRoom(s, count) && PagesSuffice(s, count, 0) && paddr != NONE && flags < PAGE_SIZE
    case Release(vaddr) =>
      vaddr in s.anon && 2 <= s.table.count < SLOTS && Returnable(s.phys.Free(), s.table.Live(), s.owner, vaddr)
  }

  ghost predicate HasRoom(s: AddressSpace, count: Word)
    requires s.Valid()
    reads s, s.phys, s.phys.ram, s.table, s.table.bytes
  {
    && s.table.count + 2 <= SLOTS && 0 < count < 0x10_0000
    && Fits(PageSpans(s.table.Live()), s.start, s.end, PAGE_SIZE * count)
  }

  ghost predicate PagesSuffice(s: AddressSpace, count: Word, frames: nat)
    requires s.Valid()
    reads s, s.phys, s.phys.ram, s.table, s.table.bytes
  {
    OwnedShape(s.phys, s.Pd(), s.managed, s.owner);
    EnoughPages(
      Directory(s.phys, s.Pd()), s.phys.freeCount, PageSpans(s.table.Live()), s.start, s.end, count, frames)
  }

  /** One call on memory is one step of the books. */
  method Serve(s: AddressSpace, call: Call) returns (answer: Word)
    requires s.Valid() && Servable(s, call)
    modifies s, s.phys, s.phys.ram, s.table, s.table.bytes
    ensures s.Valid() && Step(old(Now(s)), call, answer, Now(s), s.start, s.end)
  {
    hide Owned, BlocksOk, Placed, Deleted, Fits, TableOk, PageSpans, Directory, Tables, Extends, Descending, OnTop,
      Pages, Range, Mapping, Maps, Cleared, Entries, EnoughPages, Returnable, FramesOf, Missing,
      Backed, KeepsOthers, SlotsKept;
    ghost var was := Now(s);
    OwnedRest(s.phys, s.Pd(), s.managed, s.owner);
    TablesNotFree(s.phys, s.Pd(), s.managed, s.owner);
    ghost var k: nat;
    match call
    case Alloc(count, flags) =>
      answer, k := s.AllocVirtPages(NONE, count, flags);
      OwnedRest(s.phys, s.Pd(), s.managed, s.owner);
      TablesNotFree(s.phys, s.Pd(), s.managed, s.owner);
      IsSpent(was, Now(s), s.managed, PagesAt(answer, count));
    case Point(paddr, count, flags) =>
      answer, k := s.AllocVirtPages(paddr, count, flags);
      OwnedRest(s.phys, s.Pd(), s.managed, s.owner);
      TablesNotFree(s.phys, s.Pd(), s.managed, s.owner);
      IsSpentNone(was, Now(s), s.managed);
    case Release(vaddr) =>
      answer, k := s.FreeVirtPages(vaddr);
      FramesAgain(was.owner, vaddr, answer);
  }

  lemma FramesAgain(owner: Owners, vaddr: Word, count: Word)
    ensures FramesOf(owner, PagesAt(vaddr, count)) ==
            set v | v in Range(vaddr / PAGE_SIZE, count) && v in owner :: owner[v]
  {}

  lemma TablesNotFree(m: PhysMemory, pd: nat, managed: set<nat>, owner: Owners)
    requires Owned(m, pd, managed, owner)
    ensures m.Sized() && pd < PAGES && m.Free() !! Tables(Directory(m, pd))
  {
    hide Mapping, Directory, Tables, WellMapped, Pages;
    OwnedShape(m, pd, managed, owner);
  }

  lemma IsSpent(b: Books, b': Books, managed: set<nat>, pages: set<nat>)
    requires forall p :: p in b.free + b.tables <==> p in managed && !Holds(b.owner, p)
    requires forall p :: p in b'.free + b'.tables <==> p in managed && !Holds(b'.owner, p)
    requires b.free !! b.tables && b'.free !! b'.tables && b'.free <= b.free
    requires Extends(b.owner, b'.owner, pages) && Descending(b'.owner, pages, b.free)
    ensures Spent(b, b', FramesOf(b'.owner, pages))
  {
    HoldsExtended(b.owner, b'.owner, pages);
    forall p ensures p in b'.free + b'.tables <==> p in (b.free + b.tables) - FramesOf(b'.owner, pages) {}
    forall p | p in b.tables ensures p in b'.tables {
      assert p in b.free + b.tables;
      assert p !in FramesOf(b'.owner, pages);
      assert p in b'.free + b'.tables;
    }
  }

  lemma IsSpentNone(b: Books, b': Books, managed: set<nat>)
    requires forall p :: p in b.free + b.tables <==> p in managed && !Holds(b.owner, p)
    requires forall p :: p in b'.free + b'.tables <==> p in managed && !Holds(b'.owner, p)
    requires b.free !! b.tables && b'.free !! b'.tables && b'.free <= b.free && b'.owner == b.owner
    ensures Spent(b, b', {})
  {
    forall p ensures p in b'.free + b'.tables <==> p in b.free + b.tables {}
    forall p | p in b.tables ensures p in b'.tables {
      assert p in b.free + b.tables;
      assert p in b'.free + b'.tables;
    }
  }
}
