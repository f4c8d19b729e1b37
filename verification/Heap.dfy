/** The kernel heap: `kmalloc` and `kfree` over a one-page table of blocks (kernel/memory_manager.c),
    in 32-bit arithmetic. */
module KernelHeap {
  import opened Words
  import opened BlockTables
  import opened Gaps

  ghost function ByteSpan(e: Entry): Span { Span(e.base, e.base + e.size) }

  ghost function ByteSpans(t: seq<Entry>): (sp: seq<Span>)
    ensures |sp| == |t|
  {
    seq(|t|, i requires 0 <= i < |t| => ByteSpan(t[i]))
  }

  /** Live blocks sorted, disjoint, nonempty and inside the heap [start, end]. */
  ghost predicate HeapOk(t: seq<Entry>, start: Word, end: Word) {
    Sorted(ByteSpans(t), start, end)
  }

  /** The last block is far enough below the end of the 32-bit range for the request. */
  ghost predicate SumsFit(t: seq<Entry>, size: Word) {
    t != [] && ByteSpan(t[|t| - 1]).hi + size < WORD_LIMIT
  }

  /** A request that a gap holds, or whose sums do not wrap. */
  ghost predicate Answerable(t: seq<Entry>, size: Word, start: Word, end: Word) {
    Fits(ByteSpans(t), start, end, size) || SumsFit(t, size)
  }

  /** The new block is in the first gap that is large enough: directly below the first block when
      the front gap is, and otherwise directly above block `k - 1`. */
  ghost predicate InFirstGap(
    t: seq<Entry>, t': seq<Entry>, k: nat, base: Word, size: Word, start: Word, end: Word)
  {
    var sp := ByteSpans(t);
    && k <= |t| && t' == WithEntry(t, k, Entry(base, size)) && HeapOk(t', start, end)
    && (if k > 0 then base == sp[k - 1].hi && NoGapBefore(sp, start, size, k - 1)
        else base == if t == [] then start else sp[0].lo - size)
  }

  /** A block is entered that no gap holds: the first of all at the start of the heap, or otherwise
      where a sum that wraps passes for a gap, in front of the first block or behind block `k - 1`. */
  ghost predicate Misplaced(
    t: seq<Entry>, t': seq<Entry>, k: nat, base: Word, size: Word, start: Word, end: Word)
  {
    var sp := ByteSpans(t);
    && k <= |t| && t' == WithEntry(t, k, Entry(base, size)) && !HeapOk(t', start, end)
    && (if t == [] then base == start
        else if k == 0 then base == Wrap(t[0].base - size) && WORD_LIMIT <= start + size
        else base == sp[k - 1].hi && NoGapBefore(sp, start, size, k - 1) && WORD_LIMIT <= base + size)
  }

  /** What `kmalloc` does: right when there is a gap or no sum wraps, and otherwise a block is
      entered that is not inside the heap or overlaps another. */
  ghost predicate Malloced(
    t: seq<Entry>, t': seq<Entry>, k: nat, base: Word, size: Word, start: Word, end: Word)
  {
    if Fits(ByteSpans(t), start, end, size) then InFirstGap(t, t', k, base, size, start, end)
    else if SumsFit(t, size) then base == 0 && t' == t
    else Misplaced(t, t', k, base, size, start, end)
  }

  lemma SpansOfInserted(t: seq<Entry>, k: nat, e: Entry)
    requires k <= |t|
    ensures ByteSpans(WithEntry(t, k, e)) == Inserted(ByteSpans(t), k, ByteSpan(e))
  {}

  /** A block outside the heap spoils the table. */
  lemma Spoiled(t: seq<Entry>, k: nat, e: Entry, start: Word, end: Word)
    requires k <= |t| && (e.base < start || end < e.base + e.size)
    ensures !HeapOk(WithEntry(t, k, e), start, end)
  {
    assert ByteSpans(WithEntry(t, k, e))[k] == ByteSpan(e);
  }

  lemma LastIsHighest(t: seq<Entry>, start: Word, end: Word, i: nat)
    requires HeapOk(t, start, end) && i < |t|
    ensures ByteSpans(t)[i].hi <= ByteSpan(t[|t| - 1]).hi
  {
    SpansApart(ByteSpans(t), start, end, i, |t| - 1);
    assert ByteSpans(t)[|t| - 1] == ByteSpan(t[|t| - 1]);
  }

  /** The first block of all is put at the start of the heap, whatever its size. */
  lemma FirstBlock(start: Word, end: Word, size: Word)
    requires start <= end && 0 < size
    ensures Malloced([], WithEntry([], 0, Entry(start, size)), 0, start, size, start, end)
  {
    var e := Entry(start, size);
    SpansOfInserted([], 0, e);
    if start + size <= end {
      assert FitsAt(ByteSpans([]), start, end, start, size);
    } else {
      Spoiled([], 0, e, start, end);
    }
  }

  /** A gap in front of the first block. The test passes wrongly when `start + size` wraps. */
  lemma AtFront(t: seq<Entry>, start: Word, end: Word, size: Word)
    requires HeapOk(t, start, end) && t != [] && 0 < size && Wrap(start + size) <= t[0].base
    ensures var base := Wrap(t[0].base - size);
            Malloced(t, WithEntry(t, 0, Entry(base, size)), 0, base, size, start, end)
  {
    var sp, e := ByteSpans(t), Entry(Wrap(t[0].base - size), size);
    assert sp[0] == ByteSpan(t[0]);
    SpansOfInserted(t, 0, e);
    if start + size < WORD_LIMIT {
      FrontIsLowest(sp, start, end, size);
      InsertKeepsSorted(sp, start, end, 0, ByteSpan(e));
    } else {
      assert NoGapBefore(sp, start, size, 0);
      NoRoomAbove(sp, start, end, size, 0);
      LastIsHighest(t, start, end, 0);
      Spoiled(t, 0, e, start, end);
    }
  }

  /** A gap after block `i`. The test passes wrongly when the sum wraps. */
  lemma AtGap(t: seq<Entry>, start: Word, end: Word, size: Word, i: nat)
    requires HeapOk(t, start, end) && 0 < size && NoGapBefore(ByteSpans(t), start, size, i)
    requires Wrap(ByteSpans(t)[i].hi + size) <= if i + 1 < |t| then t[i + 1].base else end
    ensures var base := ByteSpans(t)[i].hi;
            base < WORD_LIMIT && Malloced(t, WithEntry(t, i + 1, Entry(base, size)), i + 1, base, size, start, end)
  {
    var sp := ByteSpans(t);
    var e := Entry(sp[i].hi, size);
    assert i + 1 < |t| ==> sp[i + 1] == ByteSpan(t[i + 1]);
    SpansOfInserted(t, i + 1, e);
    if sp[i].hi + size < WORD_LIMIT {
      FirstGapIsLowest(sp, start, end, size, i);
      InsertKeepsSorted(sp, start, end, i + 1, ByteSpan(e));
    } else {
      NoRoomAbove(sp, start, end, size, i);
      LastIsHighest(t, start, end, i);
      Spoiled(t, i + 1, e, start, end);
    }
  }

  lemma NoFrontGap(t: seq<Entry>, start: Word, end: Word, size: Word)
    requires HeapOk(t, start, end) && t != [] && 0 < size && t[0].base < Wrap(start + size)
    ensures NoGapBefore(ByteSpans(t), start, size, 0)
  {
    assert ByteSpans(t)[0] == ByteSpan(t[0]);
  }

  /** A sum that does not fit before the next block did not wrap. */
  lemma NoGapAt(t: seq<Entry>, start: Word, end: Word, size: Word, i: nat)
    requires HeapOk(t, start, end) && 0 < size && i + 1 < |t| && NoGapBefore(ByteSpans(t), start, size, i)
    requires t[i + 1].base < Wrap(ByteSpans(t)[i].hi + size)
    ensures NoGapBefore(ByteSpans(t), start, size, i + 1)
  {
    assert ByteSpans(t)[i + 1] == ByteSpan(t[i + 1]);
    assert ByteSpans(t)[i].hi <= ByteSpans(t)[i + 1].lo;
  }

  lemma GivenUp(t: seq<Entry>, start: Word, end: Word, size: Word, k: nat)
    requires HeapOk(t, start, end) && t != [] && 0 < size
    requires NoGapBefore(ByteSpans(t), start, size, |t| - 1)
    requires end < Wrap(ByteSpans(t)[|t| - 1].hi + size)
    ensures Malloced(t, t, k, 0, size, start, end)
  {
    NoRoomAbove(ByteSpans(t), start, end, size, |t| - 1);
  }

  /** `kmalloc` gives a block exactly when a gap holds `size` bytes, NULL otherwise, and keeps the
      blocks in order, exactly when a gap does or no sum wraps. */
  lemma MallocIsRight(t: seq<Entry>, t': seq<Entry>, k: nat, base: Word, size: Word, start: Word, end: Word)
    requires HeapOk(t, start, end) && 0 < size && 0 < start && Malloced(t, t', k, base, size, start, end)
    ensures HeapOk(t', start, end) <==> Answerable(t, size, start, end)
    ensures HeapOk(t', start, end) ==> (base == 0 <==> !Fits(ByteSpans(t), start, end, size))
  {
    if Fits(ByteSpans(t), start, end, size) {
      assert ByteSpans(t')[k] == ByteSpan(Entry(base, size));
    }
  }

  class Heap {
    const table: BlockTable
    const heap: Word                // dynamic_memory.heap
    const heapSize: Word            // dynamic_memory.heap_size, in pages

    ghost predicate Shape()
      reads table
    {
      table.Valid() && 0 < heap && heap + heapSize * PAGE_SIZE < WORD_LIMIT
    }

    ghost function End(): Word
      requires Shape()
      reads table
    {
      heap + heapSize * PAGE_SIZE
    }

    ghost predicate Valid()
      reads table, table.bytes
    {
      Shape() && HeapOk(table.Live(), heap, End())
    }

    /** An empty heap. */
    constructor (table: BlockTable, heap: Word, heapSize: Word)
      requires table.Valid() && table.count == 0 && 0 < heap && heap + heapSize * PAGE_SIZE < WORD_LIMIT
      ensures Valid() && this.table == table && this.heap == heap && this.heapSize == heapSize
    {
      this.table, this.heap, this.heapSize := table, heap, heapSize;
    }

    /** The address behind block `i`. It does not wrap, since the block lies in the heap. */
    method EndOf(i: Word) returns (sum: Word)
      requires Valid() && i < table.count
      ensures sum == ByteSpans(table.Live())[i].hi
    {
      hide Entries;
      var base := table.Base(i);
      var size := table.Size(i);
      assert ByteSpans(table.Live())[i] == ByteSpan(Entry(base, size));
      sum := Wrap(base + size);
    }

    /** `kmalloc`. `k` is the slot that the new block takes. */
    method Kmalloc(size: Word) returns (base: Word, ghost k: nat)
      requires Valid() && 0 < size && table.count + 2 <= SLOTS
      modifies table, table.bytes
      ensures Shape() && old(table.count) <= table.count <= old(table.count) + 1
      ensures Malloced(old(table.Live()), table.Live(), k, base, size, heap, End())
      ensures Valid() <==> Answerable(old(table.Live()), size, heap, End())
      ensures Valid() ==> (base == 0 <==> !Fits(ByteSpans(old(table.Live())), heap, End(), size))
    {
      hide Malloced, HeapOk, WithEntry, Entries, Wrap, Answerable, Fits;
      if 8 * (table.count + 1) > PAGE_SIZE {
        // Growing the heap table to a second page is not part of this model.
        assert false;
      }
      ghost var live, sp, end := table.Live(), ByteSpans(table.Live()), End();
      k := 0;
      if table.count == 0 {
        FirstBlock(heap, end, size);
        table.Append(heap, size);
        MallocIsRight(live, table.Live(), 0, heap, size, heap, end);
        return heap, 0;
      }
      var first := table.Base(0);
      if first >= Wrap(heap + size) {
        AtFront(live, heap, end, size);
        base := Wrap(first - size);
        table.InsertFirst(base, size);
        MallocIsRight(live, table.Live(), 0, base, size, heap, end);
        return base, 0;
      }
      NoFrontGap(live, heap, end, size);
      var i: Word := 0;
      while i < table.count - 1
        invariant i < table.count == old(table.count) && table.Live() == live && Shape()
        invariant NoGapBefore(sp, heap, size, i)
      {
        var blockEnd := EndOf(i);
        var next := table.Base(i + 1);
        if Wrap(blockEnd + size) <= next {
          AtGap(live, heap, end, size, i);
          table.InsertAfter(i, blockEnd, size);
          MallocIsRight(live, table.Live(), i + 1, blockEnd, size, heap, end);
          return blockEnd, i + 1;
        }
        NoGapAt(live, heap, end, size, i);
        i := i + 1;
      }
      var blockEnd := EndOf(i);
      if Wrap(blockEnd + size) > heap + heapSize * PAGE_SIZE {
        GivenUp(live, heap, end, size, k);
        MallocIsRight(live, live, k, 0, size, heap, end);
        return 0, k;
      }
      AtGap(live, heap, end, size, i);
      table.Append(blockEnd, size);
      MallocIsRight(live, table.Live(), i + 1, blockEnd, size, heap, end);
      return blockEnd, i + 1;
    }

    /** `kfree`: the loop counts the blocks but looks at the lowest one every time, so only the
        lowest block can be freed. */
    method Kfree(ptr: Word) returns (freed: bool)
      requires Valid() && table.count + 1 <= SLOTS
      modifies table, table.bytes
      ensures Valid()
      ensures freed <==> old(table.count) > 0 && old(table.Live())[0].base == ptr
      ensures table.Live() == if freed then old(table.Live())[1..] else old(table.Live())
    {
      hide Entries, WithoutEntry, HeapOk;
      var i: Word := 0;
      while i < table.count
        invariant i <= table.count == old(table.count) && table.Live() == old(table.Live()) && Valid()
        invariant i > 0 ==> table.Live()[0].base != ptr
      {
        var base := table.Base(0);
        if base == ptr {
          FreeFirst(table.Live(), heap, End());
          table.RemoveAt(0);
          return true;
        }
        i := i + 1;
      }
      return false;
    }
  }

  lemma FreeFirst(t: seq<Entry>, start: Word, end: Word)
    requires HeapOk(t, start, end) && t != []
    ensures WithoutEntry(t, 0) == t[1..] && HeapOk(t[1..], start, end)
  {
    RemoveKeepsSorted(ByteSpans(t), start, end, 0);
    assert ByteSpans(t[1..]) == ByteSpans(t)[..0] + ByteSpans(t)[1..];
  }

  /** A live block other than the lowest has another base, so `kfree` refuses it. */
  lemma OnlyLowestMatches(t: seq<Entry>, start: Word, end: Word, i: nat)
    requires HeapOk(t, start, end) && 0 < i < |t|
    ensures t[0].base != t[i].base
  {
    assert ByteSpans(t)[0] == ByteSpan(t[0]) && ByteSpans(t)[i] == ByteSpan(t[i]);
    SpansApart(ByteSpans(t), start, end, 0, i);
  }

  // ----- runs

  datatype Call = Malloc(size: Word) | Free(ptr: Word)

  /** What the contracts of `Kmalloc` and `Kfree` say about one call on blocks in order; 1 and 0
      stand for the answers of `kfree`. */
  ghost predicate Step(t: seq<Entry>, call: Call, answer: Word, t': seq<Entry>, start: Word, end: Word) {
    match call
    case Malloc(size) => 0 < size && exists k :: Malloced(t, t', k, answer, size, start, end)
    case Free(ptr) =>
      var lowest := t != [] && t[0].base == ptr;
      answer == (if lowest then 1 else 0) && t' == if lowest then t[1..] else t
  }

  /** The lists of live blocks before, between and after the calls. */
  ghost predicate IsRun(lists: seq<seq<Entry>>, calls: seq<Call>, answers: seq<Word>, start: Word, end: Word) {
    && |lists| == |calls| + 1 && |answers| == |calls| && HeapOk(lists[0], start, end)
    && forall i | 0 <= i < |calls| :: HeapOk(lists[i], start, end) ==>
                                      Step(lists[i], calls[i], answers[i], lists[i + 1], start, end)
  }

  ghost predicate AllInOrder(lists: seq<seq<Entry>>, start: Word, end: Word) {
    forall i | 0 <= i < |lists| :: HeapOk(lists[i], start, end)
  }

  ghost predicate CanAnswer(t: seq<Entry>, call: Call, start: Word, end: Word) {
    call.Malloc? ==> Answerable(t, call.size, start, end)
  }

  lemma StepIsRight(t: seq<Entry>, call: Call, answer: Word, t': seq<Entry>, start: Word, end: Word)
    requires HeapOk(t, start, end) && 0 < start && Step(t, call, answer, t', start, end)
    ensures HeapOk(t', start, end) <==> CanAnswer(t, call, start, end)
  {
    hide HeapOk, Malloced, Answerable;
    match call
    case Malloc(size) =>
      var k :| Malloced(t, t', k, answer, size, start, end);
      MallocIsRight(t, t', k, answer, size, start, end);
    case Free(ptr) =>
      if t != [] { FreeFirst(t, start, end); }
  }

  /** Over every run, the blocks stay sorted, disjoint and in the heap exactly when each request
      finds a gap or has no sum that wraps. */
  lemma {:induction false} RunInOrder(
    lists: seq<seq<Entry>>, calls: seq<Call>, answers: seq<Word>, start: Word, end: Word)
    requires IsRun(lists, calls, answers, start, end) && 0 < start
    ensures AllInOrder(lists, start, end) <==>
            forall i | 0 <= i < |calls| :: CanAnswer(lists[i], calls[i], start, end)
    decreases |calls|
  {
    hide HeapOk, Step, CanAnswer;
    var n := |calls| - 1;
    if calls != [] {
      RunInOrder(lists[..n + 1], calls[..n], answers[..n], start, end);
      assert AllInOrder(lists, start, end) <==>
             AllInOrder(lists[..n + 1], start, end) && HeapOk(lists[n + 1], start, end);
      if HeapOk(lists[n], start, end) {
        StepIsRight(lists[n], calls[n], answers[n], lists[n + 1], start, end);
      }
    }
  }

  /** Positive sizes, at most the heap size, that added to the end of the heap do not wrap. */
  ghost predicate Modest(calls: seq<Call>, start: Word, end: Word) {
    forall i | 0 <= i < |calls| && calls[i].Malloc? ::
      0 < calls[i].size <= end - start && end + calls[i].size < WORD_LIMIT
  }

  /** Whether an answer is the right one: NULL exactly when no gap holds the request, and 0 exactly
      when the block to free is not the lowest. */
  ghost predicate Right(t: seq<Entry>, call: Call, answer: Word, start: Word, end: Word) {
    match call
    case Malloc(size) => answer == 0 <==> !Fits(ByteSpans(t), start, end, size)
    case Free(ptr) => answer == 0 <==> t == [] || t[0].base != ptr
  }

  /** A run of `kmalloc` and `kfree`, however long, up to a `kmalloc` that would need a second table
      page: all the blocks are in order at every point, and every answer is right. */
  method Run(h: Heap, calls: seq<Call>) returns (answers: seq<Word>, ghost lists: seq<seq<Entry>>)
    requires h.Valid() && Modest(calls, h.heap, h.End()) && h.table.count < SLOTS
    modifies h.table, h.table.bytes
    ensures h.Valid() && |answers| <= |calls|
    ensures IsRun(lists, calls[..|answers|], answers, h.heap, h.End()) && AllInOrder(lists, h.heap, h.End())
    ensures lists[0] == old(h.table.Live()) && lists[|answers|] == h.table.Live()
    ensures forall i | 0 <= i < |answers| :: Right(lists[i], calls[i], answers[i], h.heap, h.End())
    ensures |answers| < |calls| ==> calls[|answers|].Malloc? && 512 < h.table.count + 2
  {
    hide Entries, HeapOk, Malloced, Step, Right, Answerable;
    answers, lists := [], [h.table.Live()];
    ghost var end := h.End();
    for i := 0 to |calls|
      invariant h.Valid() && h.End() == end && h.table.count < SLOTS && |answers| == i
      invariant IsRun(lists, calls[..i], answers, h.heap, end) && AllInOrder(lists, h.heap, end)
      invariant lists[0] == old(h.table.Live()) && lists[i] == h.table.Live()
      invariant forall j | 0 <= j < i :: Right(lists[j], calls[j], answers[j], h.heap, end)
    {
      if calls[i].Malloc? && SLOTS < h.table.count + 2 {
        return;
      }
      var answer := Serve(h, calls[i]);
      Extended(lists, calls[..i], answers, calls[i], answer, h.table.Live(), h.heap, end);
      assert calls[..i + 1] == calls[..i] + [calls[i]];
      answers, lists := answers + [answer], lists + [h.table.Live()];
    }
    assert calls[..|calls|] == calls;
  }

  /** One call of a run. */
  method Serve(h: Heap, call: Call) returns (answer: Word)
    requires h.Valid() && Modest([call], h.heap, h.End()) && h.table.count < SLOTS
    requires call.Malloc? ==> h.table.count + 2 <= SLOTS
    modifies h.table, h.table.bytes
    ensures h.Valid() && h.table.count < SLOTS
    ensures Step(old(h.table.Live()), call, answer, h.table.Live(), h.heap, h.End())
    ensures Right(old(h.table.Live()), call, answer, h.heap, h.End())
  {
    hide Entries, HeapOk, Malloced, Fits, Answerable;
    assert [call][0] == call;
    match call
    case Malloc(size) =>
      ModestStep(h.table.Live(), h.heap, h.End(), size);
      ghost var k;
      answer, k := h.Kmalloc(size);
    case Free(ptr) =>
      var freed := h.Kfree(ptr);
      answer := if freed then 1 else 0;
  }

  lemma Extended(
    lists: seq<seq<Entry>>, calls: seq<Call>, answers: seq<Word>,
    call: Call, answer: Word, t: seq<Entry>, start: Word, end: Word)
    requires IsRun(lists, calls, answers, start, end) && AllInOrder(lists, start, end) && HeapOk(t, start, end)
    requires Step(lists[|calls|], call, answer, t, start, end)
    ensures IsRun(lists + [t], calls + [call], answers + [answer], start, end)
    ensures AllInOrder(lists + [t], start, end)
  {
    hide HeapOk, Step;
  }

  lemma ModestStep(t: seq<Entry>, start: Word, end: Word, size: Word)
    requires HeapOk(t, start, end) && start <= end && 0 < size <= end - start && end + size < WORD_LIMIT
    ensures Answerable(t, size, start, end)
  {
    if t == [] {
      assert FitsAt(ByteSpans(t), start, end, start, size);
    } else {
      assert ByteSpans(t)[|t| - 1] == ByteSpan(t[|t| - 1]);
    }
  }
}
