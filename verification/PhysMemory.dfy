/** Physical memory, the one-page window onto it, and the page allocator threaded through it
    (kernel/memory_manager.c). */
module PhysMem {
  import opened Words
  import opened FreeList
  import opened Threads

  // Word offsets of the header kept in the first page of each free block.
  const NEXT := 0
  const PREV := 1
  const SIZE := 2

  class PhysMemory {
    const ram: array2<Word>           // ram[frame, word]: all of the 32-bit physical space
    var window: nat                   // the frame that TEMP_PAGE shows
    var head: Word                    // free_phys_memory_pointer
    var freeCount: Word               // free_page_count
    ghost var blocks: seq<Block>

    ghost predicate Sized() {
      ram.Length0 == PAGES && ram.Length1 == 1024
    }

    ghost predicate Shape()
      reads this`window
    {
      Sized() && window < PAGES
    }

    /** The first three words of every frame, read as a header. */
    ghost function HeadersInRam(): Headers
      requires Sized()
      reads ram
    {
      map p: nat | p < PAGES :: Header(ram[p, NEXT], ram[p, PREV], ram[p, SIZE])
    }

    /** The words in memory and the head pointer are the list `bl`, and adding `delta` to the
        counter would make it right. */
    ghost predicate Settles(bl: seq<Block>, delta: int)
      reads this, ram
    {
      && Shape() && WellFormed(bl) && Threaded(HeadersInRam(), bl)
      && head == HeadOf(bl)
      && freeCount + delta == Sum(bl)
    }

    /** The words in memory, the head pointer and the counter are the list `bl`. */
    ghost predicate Represents(bl: seq<Block>)
      reads this, ram
    {
      Settles(bl, 0)
    }

    ghost predicate Valid()
      reads this, ram
    {
      Represents(blocks)
    }

    /** No memory known yet: the state before the first `free_phys_pages` of `init_memory_manager`. */
    constructor ()
      ensures Valid() && blocks == [] && fresh(ram)
    {
      ram := new Word[0x10_0000, 1024];
      window, head, freeCount, blocks := 0, NONE, 0, [];
    }

    ghost function Free(): set<nat>
      reads this`blocks
    {
      Pages(blocks)
    }

    /** `cur` is the address of block `i`, whose header and neighbours are in memory. */
    ghost predicate ShowsBlock(cur: Word, i: nat)
      reads this, ram
    {
      Shape() && Near(HeadersInRam(), blocks, i) && cur == Addr(blocks[i].base)
    }

    method TempMapPage(page: Word)
      requires Shape()
      modifies this`window
      ensures Shape() && window == page / PAGE_SIZE
      ensures HeadersInRam() == old(HeadersInRam())
    {
      window := page / PAGE_SIZE;
    }

    method WriteNext(v: Word)
      requires Shape()
      modifies ram
      ensures HeadersInRam() == old(HeadersInRam()[window := HeadersInRam()[window].(next := v)])
      ensures forall p, k | 0 <= p < PAGES && 0 <= k < 1024 && p != window :: ram[p, k] == old(ram[p, k])
    {
      ram[window, NEXT] := v;
    }

    method WritePrev(v: Word)
      requires Shape()
      modifies ram
      ensures HeadersInRam() == old(HeadersInRam()[window := HeadersInRam()[window].(prev := v)])
      ensures forall p, k | 0 <= p < PAGES && 0 <= k < 1024 && p != window :: ram[p, k] == old(ram[p, k])
    {
      ram[window, PREV] := v;
    }

    method WriteSize(v: Word)
      requires Shape()
      modifies ram
      ensures HeadersInRam() == old(HeadersInRam()[window := HeadersInRam()[window].(size := v)])
      ensures forall p, k | 0 <= p < PAGES && 0 <= k < 1024 && p != window :: ram[p, k] == old(ram[p, k])
    {
      ram[window, SIZE] := v;
    }

    /** Writing into a frame that is not free leaves the list alone. */
    method WriteWord(k: nat, v: Word)
      requires Valid() && k < 1024 && window !in Free()
      modifies ram
      ensures Valid() && ram[window, k] == v
      ensures forall p, j | 0 <= p < PAGES && 0 <= j < 1024 && (p != window || j != k) :: ram[p, j] == old(ram[p, j])
    {
      hide WellFormed, Pages, Sum;
      ghost var h := HeadersInRam();
      ram[window, k] := v;
      OtherFrames(h, HeadersInRam(), blocks);
    }

    lemma HeaderWords(p: nat)
      requires Sized() && p < PAGES
      ensures p in HeadersInRam() && HeadersInRam()[p] == Header(ram[p, NEXT], ram[p, PREV], ram[p, SIZE])
    {}

    /** The frames named by two link words get new `prev` and `next` links. */
    method SetLinks(upper: Word, prev: Word, lower: Word, next: Word)
      requires Shape()
      modifies this`window, ram
      ensures Shape()
      ensures var h := old(HeadersInRam());
              var u, l := upper / PAGE_SIZE, lower / PAGE_SIZE;
              var h1 := h[u := h[u].(prev := prev)];
              HeadersInRam() == h1[l := h1[l].(next := next)]
      ensures forall p, k | 0 <= p < PAGES && 0 <= k < 1024 && p != upper / PAGE_SIZE && p != lower / PAGE_SIZE ::
                ram[p, k] == old(ram[p, k])
    {
      TempMapPage(upper);
      WritePrev(prev);
      TempMapPage(lower);
      WriteNext(next);
    }

    method WriteHeader(page: Word, next: Word, prev: Word, size: Word)
      requires Shape()
      modifies this`window, ram
      ensures Shape()
      ensures HeadersInRam() == old(HeadersInRam())[page / PAGE_SIZE := Header(next, prev, size)]
      ensures var p := page / 0x1000;
              ram[p, 0] == next && ram[p, 1] == prev && ram[p, 2] == size
      ensures forall p, k | 0 <= p < PAGES && 0 <= k < 1024 && p != page / PAGE_SIZE :: ram[p, k] == old(ram[p, k])
    {
      TempMapPage(page);
      WriteNext(next);
      WritePrev(prev);
      WriteSize(size);
      HeaderWords(page / PAGE_SIZE);
    }

    /** The exact-fit branch of `alloc_phys_pages`: unlink the block shown in the window. */
    method TakeBlock(cur: Word, ghost i: nat)
      requires ShowsBlock(cur, i) && window == blocks[i].base
      modifies this`window, this`head, ram
      ensures Shape() && HeadersInRam() == old(Unlinked(HeadersInRam(), blocks, i))
      ensures var prev := old(HeadersInRam()[blocks[i].base].prev);
              head == if cur != old(head) then old(head) else if cur == prev then NONE else prev
      ensures forall p, k | 0 <= p < PAGES && 0 <= k < 1024 && p !in Touched(blocks, i) :: ram[p, k] == old(ram[p, k])
    {
      var next := ram[window, NEXT];
      var prev := ram[window, PREV];
      SetLinks(next, prev, prev, next);
      if cur == head {
        head := prev;
        if cur == head {
          head := NONE;
        }
      }
    }

    /** The walk of `alloc_phys_pages` down the `prev` links to the first block of at least
        `count` pages; `cur` is NONE when the walk comes back to the head. */
    method FirstFit(count: Word) returns (cur: Word, ghost i: nat)
      requires Valid() && blocks != []
      modifies this`window
      ensures Valid() && i <= |blocks|
      ensures forall j | 0 <= j < i :: blocks[j].size < count
      ensures i == |blocks| ==> cur == NONE
      ensures i < |blocks| ==> cur == Addr(blocks[i].base) && window == blocks[i].base && count <= blocks[i].size
    {
      hide WellFormed, Pages, Sum, Range;
      cur, i := head, 0;
      while true
        invariant Valid() && i < |blocks| && cur == Addr(blocks[i].base)
        invariant forall j | 0 <= j < i :: blocks[j].size < count
        decreases |blocks| - i
      {
        assert ThreadAt(HeadersInRam(), blocks, i);
        BlockOk(blocks, i);
        TempMapPage(cur);
        if ram[window, SIZE] >= count {
          return;
        }
        cur, i := ram[window, PREV], i + 1;
        if i < |blocks| { Distinct(blocks, 0, i); }
        if cur == head {
          return NONE, i;
        }
      }
    }

    /** Exact fit: the whole of block `i` is handed out. */
    method TakeWholeBlock(cur: Word, ghost i: nat)
      requires Valid() && i < |blocks| && cur == Addr(blocks[i].base) && window == blocks[i].base
      modifies this, ram
      ensures Settles(blocks, 0 - old(blocks[i].size)) && freeCount == old(freeCount)
      ensures Free() == old(Free() - Range(blocks[i].base, blocks[i].size))
      ensures forall p, k | 0 <= p < PAGES && 0 <= k < 1024 && p !in old(Free()) :: ram[p, k] == old(ram[p, k])
    {
      hide WellFormed, Pages, Sum, Range;
      ghost var after := TakeStep(HeadersInRam(), blocks, i);
      Apart(blocks, 0, i);
      TouchedIsFree(blocks, i);
      TakeBlock(cur, i);
      blocks := after;
    }

    /** A larger block gives up its last `count` pages. */
    method CarveBlock(count: Word, ghost i: nat)
      requires Valid() && i < |blocks| && window == blocks[i].base && count < blocks[i].size
      modifies this, ram
      ensures Settles(blocks, 0 - count) && freeCount == old(freeCount)
      ensures window == old(window) && ram[window, SIZE] == old(blocks[i].size) - count
      ensures Free() == old(Free()) - Range(old(blocks[i].End()) - count, count)
      ensures count == 0 ==> blocks == old(blocks)
      ensures forall p, k | 0 <= p < PAGES && 0 <= k < 1024 && p !in old(Free()) :: ram[p, k] == old(ram[p, k])
    {
      hide WellFormed, Pages, Sum, Range;
      ghost var after := CarveStep(HeadersInRam(), blocks, i, count);
      BlockOk(blocks, i);
      WriteSize(ram[window, SIZE] - count);
      blocks := after;
    }

    /** What `alloc_phys_pages` answers for a request on the free set `free`. */
    ghost predicate Allocated(free: set<nat>, count: nat, result: Word)
      reads this`blocks
    {
      if result == NONE then
        NoRun(free, count) && Free() == free
      else
        && result % PAGE_SIZE == 0 && HighestRun(free, result / PAGE_SIZE, count)
        && Free() == free - Range(result / PAGE_SIZE, count)
    }

    /** `alloc_phys_pages`: hands out the highest run of `count` free pages, or NONE when there
        is no such run. (A request for no pages answers the end of the highest block.) */
    method AllocPhysPages(count: Word) returns (result: Word)
      requires Valid()
      modifies this, ram
      ensures Valid()
      ensures count > 0 ==> Allocated(old(Free()), count, result)
      ensures count == 0 ==> blocks == old(blocks) && result == if blocks == [] then NONE else Addr(blocks[0].End())
      ensures freeCount == old(freeCount) - if result == 0xFFFF_FFFF then 0 else count
      ensures count == 1 ==> (result == 0xFFFF_FFFF <==> old(freeCount) == 0)
      ensures forall p, k | 0 <= p < PAGES && 0 <= k < 1024 && p !in old(Free()) :: ram[p, k] == old(ram[p, k])
    {
      hide WellFormed, Pages, Sum, Range, NoRun;
      OnePage(blocks);
      if freeCount < count {
        TooFew(blocks, count);
        return NONE;
      }
      result := NONE;
      if head != NONE {
        var cur, i := FirstFit(count);
        if cur != NONE {
          result := TakeFrom(cur, count, i);
          freeCount := freeCount - count;
        } else {
          BlockOk(blocks, 0);
          NoFit(blocks, count);
        }
      } else if count > 0 {
        NoFit(blocks, count);
      }
    }

    /** The block that the walk of `alloc_phys_pages` stopped at hands out its last pages. */
    method TakeFrom(cur: Word, count: Word, ghost i: nat) returns (result: Word)
      requires Valid() && i < |blocks| && cur == Addr(blocks[i].base) && window == blocks[i].base
      requires count <= blocks[i].size && forall j | 0 <= j < i :: blocks[j].size < count
      modifies this, ram
      ensures Settles(blocks, 0 - count) && freeCount == old(freeCount) && count <= freeCount
      ensures result != NONE
      ensures count > 0 ==> Allocated(old(Free()), count, result)
      ensures count == 0 ==> blocks == old(blocks) && result == Addr(blocks[0].End())
      ensures forall p, k | 0 <= p < PAGES && 0 <= k < 1024 && p !in old(Free()) :: ram[p, k] == old(ram[p, k])
    {
      hide WellFormed, Pages, Sum, Range;
      assert ThreadAt(HeadersInRam(), blocks, i);
      BlockOk(blocks, i);
      if count > 0 { FirstFitIsHighest(blocks, i, count); }
      ghost var top := blocks[i].End();
      if ram[window, SIZE] == count {
        TakeWholeBlock(cur, i);
        result := cur;
      } else {
        CarveBlock(count, i);
        result := cur + PAGE_SIZE * ram[window, SIZE];
      }
      assert result == Addr(top - count) && result / PAGE_SIZE == top - count;
    }

    /** The branch of `free_phys_pages` for a range that starts above block `i`. */
    method LinkAboveBlock(cur: Word, base: Word, count: Word, ghost i: nat)
      requires ShowsBlock(cur, i) && window == blocks[i].base && base % PAGE_SIZE == 0
      modifies this`window, this`head, ram
      ensures Shape() && HeadersInRam() == old(LinkedAbove(HeadersInRam(), blocks, i, base, count))
      ensures head == if cur == old(head) then base else old(head)
      ensures forall p, k | 0 <= p < PAGES && 0 <= k < 1024 && p !in Touched(blocks, i) && p != base / PAGE_SIZE ::
                ram[p, k] == old(ram[p, k])
    {
      var next := ram[window, NEXT];
      WriteNext(base);
      TempMapPage(next);
      WritePrev(base);
      WriteHeader(base, next, cur, count);
      if cur == head {
        head := base;
      }
    }

    /** The branch of `free_phys_pages` for a range that ends where block `i` starts, when the
        block below does not touch it. */
    method LowerBlock(cur: Word, prev: Word, base: Word, count: Word, ghost i: nat)
      requires ShowsBlock(cur, i) && base % PAGE_SIZE == 0
      requires prev == HeadersInRam()[blocks[i].base].prev
      requires count + blocks[i].size < WORD_LIMIT
      modifies this`window, this`head, ram
      ensures Shape() && HeadersInRam() == old(Lowered(HeadersInRam(), blocks, i, base, count + blocks[i].size))
      ensures head == if cur == old(head) then base else old(head)
      ensures forall p, k | 0 <= p < PAGES && 0 <= k < 1024 && p !in Touched(blocks, i) && p != base / PAGE_SIZE ::
                ram[p, k] == old(ram[p, k])
    {
      hide WellFormed, Above, Below, HeadersInRam;
      TempMapPage(cur);
      HeaderWords(window);
      var oldCount := ram[window, SIZE];
      var next := ram[window, NEXT];
      SetLinks(next, base, prev, base);
      WriteHeader(base, next, prev, count + oldCount);
      if cur == head {
        head := base;
      }
    }

    /** The branch of `free_phys_pages` for a range that exactly fills the gap between block `i`
        and the block below it. */
    method BridgeBlocks(cur: Word, prev: Word, count: Word, ghost i: nat)
      requires ShowsBlock(cur, i)
      requires prev == HeadersInRam()[blocks[i].base].prev
      requires HeadersInRam()[prev / PAGE_SIZE].size + blocks[i].size + count < WORD_LIMIT
      modifies this`window, this`head, ram
      ensures Shape()
      ensures HeadersInRam() ==
              old(Bridged(HeadersInRam(), blocks, i, HeadersInRam()[prev / PAGE_SIZE].size + blocks[i].size + count))
      ensures head == if cur == old(head) then prev else old(head)
      ensures forall p, k | 0 <= p < PAGES && 0 <= k < 1024 && p !in Touched(blocks, i) :: ram[p, k] == old(ram[p, k])
    {
      hide WellFormed, Above, Below, HeadersInRam;
      TempMapPage(cur);
      HeaderWords(window);
      var next := ram[window, NEXT];
      var size := ram[window, SIZE];
      TempMapPage(prev);
      HeaderWords(window);
      var lowerSize := ram[window, SIZE];
      WriteNext(next);
      WriteSize(lowerSize + size + count);
      TempMapPage(next);
      WritePrev(prev);
      if cur == head {
        head := prev;
      }
    }

    /** `cur` is block `i`, reached by the walk with a taken range `base`, `count` to give back. */
    ghost predicate Freeing(cur: Word, base: Word, count: Word, i: nat)
      reads this, ram
    {
      && Valid() && i < |blocks| && cur == Addr(blocks[i].base)
      && base % PAGE_SIZE == 0 && Freeable(blocks, base / PAGE_SIZE, count)
      && ClearAbove(blocks, i, base / PAGE_SIZE, count)
    }

    // ----- the branches of `free_phys_pages`, each with the list it leaves

    method FreeAbove(cur: Word, base: Word, count: Word, ghost i: nat)
      requires Freeing(cur, base, count, i) && Addr(blocks[i].End()) < base && window == blocks[i].base
      modifies this, ram
      ensures Settles(blocks, count) && freeCount == old(freeCount)
      ensures Free() == old(Free()) + Range(base / PAGE_SIZE, count)
      ensures forall p, k | 0 <= p < PAGES && 0 <= k < 1024 && p !in Free() :: ram[p, k] == old(ram[p, k])
    {
      hide WellFormed, Pages, Sum, Range;
      ghost var after := AboveStep(HeadersInRam(), blocks, i, base / PAGE_SIZE, count);
      Apart(blocks, 0, i);
      TouchedIsFree(blocks, i);
      LinkAboveBlock(cur, base, count, i);
      blocks := after;
    }

    method FreeOnTop(cur: Word, base: Word, count: Word, ghost i: nat)
      requires Freeing(cur, base, count, i) && Addr(blocks[i].End()) == base && window == blocks[i].base
      modifies this, ram
      ensures Settles(blocks, count) && freeCount == old(freeCount)
      ensures Free() == old(Free()) + Range(base / PAGE_SIZE, count)
      ensures forall p, k | 0 <= p < PAGES && 0 <= k < 1024 && p !in Free() :: ram[p, k] == old(ram[p, k])
    {
      hide WellFormed, Pages, Sum, Range;
      ghost var after := OnTopStep(HeadersInRam(), blocks, i, base / PAGE_SIZE, count);
      BlockOk(blocks, i);
      BlockOk(after, 0);
      SumBound(after);
      var next := ram[window, NEXT];
      WriteSize(ram[window, SIZE] + count);
      if next == base + PAGE_SIZE * count {
        // The forward merge of the two blocks: an adjacent higher block is always met first.
        assert false;
      }
      blocks := after;
    }

    /** No gap is filled: block `i` starts lower. In a list of one block the new header goes on
        naming the old one, and memory then holds no list at all. */
    method FreeLower(cur: Word, prev: Word, base: Word, count: Word, ghost i: nat)
      requires Freeing(cur, base, count, i) && prev == Addr(blocks[Below(i, |blocks|)].base)
      requires base + Addr(count) == cur && (i + 1 < |blocks| ==> Addr(blocks[i + 1].End()) != base)
      modifies this, ram
      ensures |old(blocks)| > 1 ==> Settles(blocks, count) && Free() == old(Free()) + Range(base / PAGE_SIZE, count)
      ensures |old(blocks)| == 1 ==> (forall bl :: !Settles(bl, count)) && Lonely(old(blocks), base / PAGE_SIZE, count)
      ensures freeCount == old(freeCount)
      ensures forall p, k |
                0 <= p < PAGES && 0 <= k < 1024 && p !in old(Free()) && p !in Range(base / PAGE_SIZE, count) ::
                ram[p, k] == old(ram[p, k])
    {
      hide WellFormed, Pages, Sum;
      ghost var h, after := HeadersInRam(), blocks;
      if |blocks| > 1 {
        after := BelowStep(h, blocks, i, base / PAGE_SIZE, count);
      }
      IsNear(h, blocks, i);
      BlockOk(blocks, i);
      Apart(blocks, 0, i);
      TouchedIsFree(blocks, i);
      LowerBlock(cur, prev, base, count, i);
      if |blocks| == 1 {
        forall bl ensures !Settles(bl, count) {
          if Settles(bl, count) {
            LoneLoweredNotThreaded(h, blocks, base, count + blocks[0].size, bl);
          }
        }
      }
      blocks := after;
    }

    /** What a range that ends where the only block starts leaves behind: two headers naming each
        other, the higher one stale, and the pages of the old block in both. */
    ghost predicate Lonely(bl: seq<Block>, base: nat, count: nat)
      requires |bl| == 1 && bl[0].base < PAGES && Sized() && base < PAGES
      reads this, ram
    {
      var lower, upper := HeadersInRam()[base], HeadersInRam()[bl[0].base];
      && head == Addr(base) && base < bl[0].base
      && lower.next == lower.prev == Addr(bl[0].base) && lower.size == count + bl[0].size
      && upper.next == upper.prev == Addr(base) && upper.size == bl[0].size
    }

    method FreeBetween(cur: Word, prev: Word, base: Word, count: Word, ghost i: nat)
      requires Freeing(cur, base, count, i) && i + 1 < |blocks| && prev == Addr(blocks[i + 1].base)
      requires base + Addr(count) == cur && Addr(blocks[i + 1].End()) == base
      modifies this, ram
      ensures Settles(blocks, count) && freeCount == old(freeCount)
      ensures Free() == old(Free()) + Range(base / PAGE_SIZE, count)
      ensures forall p, k | 0 <= p < PAGES && 0 <= k < 1024 && p !in Free() :: ram[p, k] == old(ram[p, k])
    {
      hide WellFormed, Pages, Sum, Range;
      ghost var after := BetweenStep(HeadersInRam(), blocks, i, base / PAGE_SIZE, count);
      assert ThreadAt(HeadersInRam(), blocks, i) && ThreadAt(HeadersInRam(), blocks, i + 1);
      Apart(blocks, 0, i);
      TouchedIsFree(blocks, i);
      BridgeBlocks(cur, prev, count, i);
      blocks := after;
    }

    /** The two uncovered cases: a range touching the only block from below gives the lonely pair,
        and a range below everything is nowhere linked in. */
    ghost predicate LeftBehind(head0: Word, h0: Headers, bl: seq<Block>, base: nat, count: nat)
      reads this, ram
    {
      && bl != [] && bl[0].base < PAGES && Sized() && base < PAGES
      && if base + count == bl[|bl| - 1].base then |bl| == 1 && Lonely(bl, base, count)
         else base + count < bl[|bl| - 1].base && head == head0 && HeadersInRam() == h0
    }

    /** The branch of `free_phys_pages` for a range that ends where block `i` starts. */
    method FreeUnder(cur: Word, base: Word, count: Word, ghost i: nat)
      requires Freeing(cur, base, count, i) && base + Addr(count) == cur && window == blocks[i].base
      modifies this, ram
      ensures |old(blocks)| > 1 ==> Settles(blocks, count) && Free() == old(Free()) + Range(base / PAGE_SIZE, count)
      ensures |old(blocks)| == 1 ==> (forall bl :: !Settles(bl, count)) && Lonely(old(blocks), base / PAGE_SIZE, count)
      ensures freeCount == old(freeCount)
      ensures forall p, k |
                0 <= p < PAGES && 0 <= k < 1024 && p !in old(Free()) && p !in Range(base / PAGE_SIZE, count) ::
                ram[p, k] == old(ram[p, k])
    {
      hide WellFormed, Pages, Sum, Lonely;
      ghost var below := Below(i, |blocks|);
      IsNear(HeadersInRam(), blocks, i);
      assert ThreadAt(HeadersInRam(), blocks, below);
      if below > 0 { Order(blocks, i, below); } else if i > 0 { Order(blocks, 0, i); }
      BlockOk(blocks, below);
      var prev := ram[window, PREV];
      TempMapPage(prev);
      if prev + PAGE_SIZE * ram[window, SIZE] == base {
        FreeBetween(cur, prev, base, count, i);
      } else {
        FreeLower(cur, prev, base, count, i);
      }
    }

    /** The walk of `free_phys_pages` down the `prev` links of a nonempty list. */
    method FreeIntoList(base: Word, count: Word)
      requires Valid() && blocks != []
      requires base % PAGE_SIZE == 0 && Freeable(blocks, base / PAGE_SIZE, count)
      modifies this, ram
      ensures old(Covered(blocks, base / PAGE_SIZE, count)) ==>
                Settles(blocks, count) && Free() == old(Free()) + Range(base / PAGE_SIZE, count)
      ensures !old(Covered(blocks, base / PAGE_SIZE, count)) ==>
                && (forall bl :: !Settles(bl, count))
                && LeftBehind(old(head), old(HeadersInRam()), old(blocks), base / PAGE_SIZE, count)
      ensures freeCount == old(freeCount)
      ensures forall p, k | 0 <= p < PAGES && 0 <= k < 1024 && p !in old(Free()) + Range(base / PAGE_SIZE, count) ::
                ram[p, k] == old(ram[p, k])
    {
      hide WellFormed, Pages, Sum, Range, Lonely;
      var cur := head;
      ghost var i := 0;
      while true
        invariant Valid() && blocks == old(blocks) && freeCount == old(freeCount)
        invariant i < |blocks| && cur == Addr(blocks[i].base) && ClearAbove(blocks, i, base / PAGE_SIZE, count)
        invariant head == old(head) && HeadersInRam() == old(HeadersInRam())
        invariant forall p, k | 0 <= p < PAGES && 0 <= k < 1024 :: ram[p, k] == old(ram[p, k])
        decreases |blocks| - i
      {
        assert ThreadAt(HeadersInRam(), blocks, i);
        BlockOk(blocks, i);
        Beside(blocks, i, base / PAGE_SIZE, count);
        CoveredAt(blocks, i, base / PAGE_SIZE, count);
        TempMapPage(cur);
        var end := cur + PAGE_SIZE * ram[window, SIZE];
        if base > end {
          FreeAbove(cur, base, count, i);
          return;
        } else if end == base {
          FreeOnTop(cur, base, count, i);
          return;
        } else if base + PAGE_SIZE * count == cur {
          FreeUnder(cur, base, count, i);
          return;
        }
        cur, i := ram[window, PREV], i + 1;
        if i < |blocks| { Distinct(blocks, 0, i); }
        if cur == head {
          break;
        }
      }
      // The walk came back to the head: the range is nowhere linked in.
      forall bl ensures !Settles(bl, count) {
        if Settles(bl, count) { ThreadUnique(HeadersInRam(), bl, blocks); }
      }
    }

    /** `free_phys_pages`: the list stays well formed, with exactly these pages added, exactly when
        the range is `Covered`. Otherwise nothing in memory is a list that agrees with the counter. */
    method FreePhysPages(base: Word, count: Word)
      requires Valid() && base % PAGE_SIZE == 0 && Freeable(blocks, base / PAGE_SIZE, count)
      modifies this, ram
      ensures (exists bl :: Represents(bl)) <==> old(Covered(blocks, base / PAGE_SIZE, count))
      ensures old(Covered(blocks, base / PAGE_SIZE, count)) ==>
                Valid() && Free() == old(Free()) + Range(base / PAGE_SIZE, count)
      ensures !old(Covered(blocks, base / PAGE_SIZE, count)) ==>
                LeftBehind(old(head), old(HeadersInRam()), old(blocks), base / PAGE_SIZE, count)
      ensures freeCount == old(freeCount) + count
      ensures forall p, k | 0 <= p < PAGES && 0 <= k < 1024 && p !in old(Free()) + Range(base / PAGE_SIZE, count) ::
                ram[p, k] == old(ram[p, k])
    {
      assert blocks == [] ==> freeCount == 0;
      hide WellFormed, Pages, Sum;
      if head == NONE {
        WriteHeader(base, base, base, count);
        head := base;
        blocks := FirstBlock(HeadersInRam(), base / PAGE_SIZE, count);
      } else {
        SumBound(blocks);
        BlockOk(blocks, 0);
        FreeIntoList(base, count);
      }
      label settled:
      freeCount := freeCount + count;
      if !old(Covered(blocks, base / PAGE_SIZE, count)) {
        forall bl ensures !Represents(bl) { assert !old@settled(Settles(bl, count)); }
      } else {
        assert Represents(blocks);
      }
    }
  }
}
