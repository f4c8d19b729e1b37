/** The table of virtual blocks of an address space: `add_virt_block` and `del_virt_block`
    (kernel/memory_manager.c), in 32-bit arithmetic. */
module VirtTable {
  import opened Words
  import opened BlockTables
  import opened Gaps

  ghost function PageSpan(e: Entry): Span { Span(e.base, e.base + PAGE_SIZE * e.size) }

  ghost function PageSpans(t: seq<Entry>): (sp: seq<Span>)
    ensures |sp| == |t|
  {
    seq(|t|, i requires 0 <= i < |t| => PageSpan(t[i]))
  }

  /** Blocks sorted, disjoint, nonempty and inside [start, end]. */
  ghost predicate TableOk(t: seq<Entry>, start: Word, end: Word) {
    Sorted(PageSpans(t), start, end)
  }

  lemma SpansOfInserted(t: seq<Entry>, k: nat, e: Entry)
    requires k <= |t|
    ensures PageSpans(WithEntry(t, k, e)) == Inserted(PageSpans(t), k, PageSpan(e))
  {}

  /** Some block ends too close to `end` for the request, and the sum that shows it does not wrap.
      (Never so when `end` is the last 32-bit address.) */
  ghost predicate OverflowSeen(sp: seq<Span>, end: nat, len: nat) {
    exists i :: 0 <= i < |sp| && end < sp[i].hi + len < WORD_LIMIT
  }

  lemma OverflowMissed(sp: seq<Span>, start: nat, end: nat, len: nat, i: nat)
    requires Sorted(sp, start, end) && i < |sp| && WORD_LIMIT <= sp[i].hi + len
    requires forall j | 0 <= j < i :: sp[j].hi + len <= end
    ensures !OverflowSeen(sp, end, len)
  {
    forall j | i < j < |sp| ensures sp[i].hi <= sp[j].hi { assert sp[i].hi <= sp[j].lo; }
  }

  /** A block that ends past the end of the space spoils the table. */
  lemma Spoiled(t: seq<Entry>, k: nat, e: Entry, start: Word, end: Word)
    requires k <= |t| && end < e.base + PAGE_SIZE * e.size
    ensures !TableOk(WithEntry(t, k, e), start, end)
  {
    assert PageSpans(WithEntry(t, k, e))[k] == PageSpan(e);
  }

  /** The record for the request is in the table, at the lowest address where it fits. */
  ghost predicate Placed(
    t: seq<Entry>, t': seq<Entry>, k: nat, base: Word, size: Word, start: Word, end: Word)
  {
    && LowestFit(PageSpans(t), start, end, base, PAGE_SIZE * size)
    && k <= |t| && t' == WithEntry(t, k, Entry(base, size))
    && TableOk(t', start, end)
  }

  /** A block is entered where a sum that wraps passes for a gap: at the start of the space, or behind
      block `k - 1`. It reaches past the end of the space. */
  ghost predicate Misplaced(
    t: seq<Entry>, t': seq<Entry>, k: nat, base: Word, size: Word, start: Word, end: Word)
  {
    var sp, len := PageSpans(t), PAGE_SIZE * size;
    && k <= |t| && t' == WithEntry(t, k, Entry(base, size)) && !TableOk(t', start, end)
    && WORD_LIMIT <= base + len
    && base == (if k == 0 then start else sp[k - 1].hi)
    && (k > 0 ==> NoGapBefore(sp, start, len, k - 1))
  }

  /** What `add_virt_block` does: right when something fits or an overflow is seen, and otherwise
      a block reaching past the end of the space is entered. */
  ghost predicate Added(
    t: seq<Entry>, t': seq<Entry>, k: nat, base: Word, size: Word, start: Word, end: Word)
  {
    var sp, len := PageSpans(t), PAGE_SIZE * size;
    if Fits(sp, start, end, len) then Placed(t, t', k, base, size, start, end)
    else if OverflowSeen(sp, end, len) then base == 0 && t' == t
    else Misplaced(t, t', k, base, size, start, end)
  }

  /** A gap in front of the first block. The test passes wrongly when `start + len` wraps. */
  lemma AtFront(t: seq<Entry>, start: Word, end: Word, size: Word)
    requires TableOk(t, start, end) && t != [] && 0 < size < 0x10_0000
    requires Wrap(start + Wrap(size * PAGE_SIZE)) <= t[0].base
    ensures Added(t, WithEntry(t, 0, Entry(start, size)), 0, start, size, start, end)
  {
    var sp, len, e := PageSpans(t), PAGE_SIZE * size, Entry(start, size);
    assert sp[0] == PageSpan(t[0]);
    SpansOfInserted(t, 0, e);
    if start + len < WORD_LIMIT {
      FrontIsLowest(sp, start, end, len);
      InsertKeepsSorted(sp, start, end, 0, PageSpan(e));
    } else {
      assert NoGapBefore(sp, start, len, 0);
      NoRoomAbove(sp, start, end, len, 0);
      OverflowMissed(sp, start, end, len, 0);
      Spoiled(t, 0, e, start, end);
    }
  }

  /** A gap after block `i`. The test passes wrongly when the sum wraps. */
  lemma AtGap(t: seq<Entry>, start: Word, end: Word, size: Word, i: nat)
    requires TableOk(t, start, end) && 0 < size < 0x10_0000
    requires NoGapBefore(PageSpans(t), start, PAGE_SIZE * size, i)
    requires forall j | 0 <= j < i :: PageSpans(t)[j].hi + PAGE_SIZE * size <= end
    requires Wrap(PageSpans(t)[i].hi + PAGE_SIZE * size) <= if i + 1 < |t| then t[i + 1].base else end
    ensures var base := PageSpans(t)[i].hi;
            base < WORD_LIMIT && Added(t, WithEntry(t, i + 1, Entry(base, size)), i + 1, base, size, start, end)
  {
    var sp, len := PageSpans(t), PAGE_SIZE * size;
    var e := Entry(sp[i].hi, size);
    assert i + 1 < |t| ==> sp[i + 1] == PageSpan(t[i + 1]);
    SpansOfInserted(t, i + 1, e);
    if sp[i].hi + len < WORD_LIMIT {
      FirstGapIsLowest(sp, start, end, len, i);
      InsertKeepsSorted(sp, start, end, i + 1, PageSpan(e));
    } else {
      NoRoomAbove(sp, start, end, len, i);
      OverflowMissed(sp, start, end, len, i);
      Spoiled(t, i + 1, e, start, end);
    }
  }

  /** Giving up at block `i` is right: nothing fits above it either. */
  lemma GivenUp(t: seq<Entry>, start: Word, end: Word, size: Word, i: nat, k: nat)
    requires TableOk(t, start, end) && 0 < size < 0x10_0000
    requires NoGapBefore(PageSpans(t), start, PAGE_SIZE * size, i)
    requires end < Wrap(PageSpans(t)[i].hi + PAGE_SIZE * size)
    ensures Added(t, t, k, 0, size, start, end)
  {
    NoRoomAbove(PageSpans(t), start, end, PAGE_SIZE * size, i);
  }

  lemma EndSum(base: Word, blockSize: Word, size: Word)
    requires base + PAGE_SIZE * blockSize < WORD_LIMIT && size < 0x10_0000
    ensures Wrap(base + Wrap(Wrap(blockSize + size) * PAGE_SIZE)) ==
            Wrap(base + PAGE_SIZE * blockSize + PAGE_SIZE * size)
    ensures Wrap(base + Wrap(blockSize * PAGE_SIZE)) == base + PAGE_SIZE * blockSize
  {
    assert Wrap(blockSize + size) == blockSize + size;
    WrapAdd(base, (blockSize + size) * PAGE_SIZE);
    assert base + (blockSize + size) * PAGE_SIZE == base + PAGE_SIZE * blockSize + PAGE_SIZE * size;
  }

  /** The address behind block `i` and `size` more pages, which may wrap. */
  method EndWith(t: BlockTable, i: Word, size: Word, ghost start: Word, ghost end: Word) returns (sum: Word)
    requires t.Valid() && i < t.count && size < 0x10_0000 && TableOk(t.Live(), start, end)
    ensures sum == Wrap(PageSpans(t.Live())[i].hi + PAGE_SIZE * size)
  {
    hide Wrap, Entries;
    var base := t.Base(i);
    var blockSize := t.Size(i);
    assert PageSpans(t.Live())[i] == Span(base, base + PAGE_SIZE * blockSize);
    EndSum(base, blockSize, size);
    sum := Wrap(base + Wrap(Wrap(blockSize + size) * PAGE_SIZE));
  }

  /** The address behind block `i`. */
  method EndOf(t: BlockTable, i: Word, ghost start: Word, ghost end: Word) returns (sum: Word)
    requires t.Valid() && i < t.count && TableOk(t.Live(), start, end)
    ensures sum == PageSpans(t.Live())[i].hi
  {
    hide Wrap, Entries;
    var base := t.Base(i);
    var blockSize := t.Size(i);
    assert PageSpans(t.Live())[i] == Span(base, base + PAGE_SIZE * blockSize);
    EndSum(base, blockSize, 0);
    sum := Wrap(base + Wrap(blockSize * PAGE_SIZE));
  }

  lemma NoFrontGap(t: seq<Entry>, start: Word, end: Word, size: Word)
    requires TableOk(t, start, end) && t != [] && 0 < size < 0x10_0000
    requires t[0].base < Wrap(start + Wrap(size * PAGE_SIZE))
    ensures NoGapBefore(PageSpans(t), start, PAGE_SIZE * size, 0)
  {
    assert PageSpans(t)[0] == PageSpan(t[0]);
  }

  /** A sum that passes neither test did not wrap. */
  lemma NoGapAt(t: seq<Entry>, start: Word, end: Word, size: Word, i: nat)
    requires TableOk(t, start, end) && 0 < size < 0x10_0000 && i + 1 < |t|
    requires NoGapBefore(PageSpans(t), start, PAGE_SIZE * size, i)
    requires t[i + 1].base < Wrap(PageSpans(t)[i].hi + PAGE_SIZE * size) <= end
    ensures PageSpans(t)[i].hi + PAGE_SIZE * size <= end
    ensures NoGapBefore(PageSpans(t), start, PAGE_SIZE * size, i + 1)
  {
    assert PageSpans(t)[i + 1] == PageSpan(t[i + 1]);
    assert PageSpans(t)[i].hi <= PageSpans(t)[i + 1].lo;
  }

  /** Whether `add_virt_block` leaves the table in order and answers rightly. */
  ghost predicate Serves(t: seq<Entry>, size: Word, start: Word, end: Word) {
    Fits(PageSpans(t), start, end, PAGE_SIZE * size) || OverflowSeen(PageSpans(t), end, PAGE_SIZE * size)
  }

  /** `add_virt_block` does right exactly when the request fits or an overflow is seen. */
  lemma AddIsRight(t: seq<Entry>, t': seq<Entry>, k: nat, base: Word, size: Word, start: Word, end: Word)
    requires TableOk(t, start, end) && 0 < size && Added(t, t', k, base, size, start, end)
    ensures TableOk(t', start, end) <==> Serves(t, size, start, end)
    ensures TableOk(t', start, end) && 0 < start ==>
              (base == 0 <==> !Fits(PageSpans(t), start, end, PAGE_SIZE * size))
  {
    var sp, len := PageSpans(t), PAGE_SIZE * size;
    if Fits(sp, start, end, len) && base == 0 {
      assert FitsAt(sp, start, end, base, len);
    }
  }

  /** The kernel's own space ends at the last 32-bit address, where an overflow is never seen. */
  lemma KernelSpaceNeverRefuses(t: seq<Entry>, size: Word, start: Word)
    ensures Serves(t, size, start, 0xFFFF_FFFF) <==> Fits(PageSpans(t), start, 0xFFFF_FFFF, PAGE_SIZE * size)
  {}

  /** `add_virt_block`. `k` is the slot that the new block takes. */
  method AddVirtBlock(t: BlockTable, start: Word, end: Word, size: Word) returns (base: Word, ghost k: nat)
    requires t.Valid() && TableOk(t.Live(), start, end)
    requires 0 < t.count && t.count + 2 <= SLOTS && 0 < size < 0x10_0000
    modifies t, t.bytes
    ensures t.Valid() && old(t.count) <= t.count <= old(t.count) + 1
    ensures Added(old(t.Live()), t.Live(), k, base, size, start, end)
    ensures TableOk(t.Live(), start, end) <==> Serves(old(t.Live()), size, start, end)
    ensures TableOk(t.Live(), start, end) && 0 < start ==>
              (base == 0 <==> !Fits(PageSpans(old(t.Live())), start, end, PAGE_SIZE * size))
    ensures end == 0xFFFF_FFFF ==>
              (TableOk(t.Live(), start, end) <==> Fits(PageSpans(old(t.Live())), start, end, PAGE_SIZE * size))
  {
    hide Added, TableOk, WithEntry, Entries, Wrap, Fits, Serves;
    KernelSpaceNeverRefuses(t.Live(), size, start);
    ghost var live, sp, len := t.Live(), PageSpans(t.Live()), PAGE_SIZE * size;
    k := 0;
    var first := t.Base(0);
    assert sp[0] == PageSpan(live[0]);
    if first >= Wrap(start + Wrap(size * PAGE_SIZE)) {
      AtFront(live, start, end, size);
      t.InsertFirst(start, size);
      AddIsRight(live, t.Live(), 0, start, size, start, end);
      return start, 0;
    }
    NoFrontGap(live, start, end, size);
    var i: Word := 0;
    while i < t.count - 1
      invariant i < t.count == old(t.count) && t.Live() == live && t.Valid()
      invariant NoGapBefore(sp, start, len, i)
      invariant forall j | 0 <= j < i :: sp[j].hi + len <= end
    {
      var sum := EndWith(t, i, size, start, end);
      if sum > end {
        GivenUp(live, start, end, size, i, k);
        AddIsRight(live, live, k, 0, size, start, end);
        return 0, k;
      }
      var next := t.Base(i + 1);
      if sum <= next {
        AtGap(live, start, end, size, i);
        base := EndOf(t, i, start, end);
        t.InsertAfter(i, base, size);
        AddIsRight(live, t.Live(), i + 1, base, size, start, end);
        return base, i + 1;
      }
      NoGapAt(live, start, end, size, i);
      i := i + 1;
    }
    var sum := EndWith(t, i, size, start, end);
    if sum > end {
      GivenUp(live, start, end, size, i, k);
      AddIsRight(live, live, k, 0, size, start, end);
      return 0, k;
    }
    AtGap(live, start, end, size, i);
    base := EndOf(t, i, start, end);
    t.Append(base, size);
    k := i + 1;
    AddIsRight(live, t.Live(), k, base, size, start, end);
  }

  /** The first record with this base is gone and its size is the answer; with no such record
      nothing happens and the answer is 0. */
  ghost predicate Deleted(t: seq<Entry>, t': seq<Entry>, k: nat, base: Word, size: Word) {
    && k <= |t| && (forall j | 0 <= j < k :: t[j].base != base)
    && if k < |t| then t[k] == Entry(base, size) && t' == WithoutEntry(t, k) else size == 0 && t' == t
  }

  /** `del_virt_block` */
  method DelVirtBlock(t: BlockTable, base: Word) returns (size: Word, ghost k: nat)
    requires t.Valid() && t.count + 1 <= SLOTS
    modifies t, t.bytes
    ensures t.Valid() && Deleted(old(t.Live()), t.Live(), k, base, size)
    ensures t.count == old(t.count) - if k < old(t.count) then 1 else 0
  {
    hide Entries, WithoutEntry;
    var i: Word := 0;
    while i < t.count
      invariant i <= t.count == old(t.count) && t.Live() == old(t.Live())
      invariant forall j | 0 <= j < i :: t.Live()[j].base != base
    {
      var b := t.Base(i);
      if b == base {
        size := t.Size(i);
        t.RemoveAt(i);
        return size, i;
      }
      i := i + 1;
    }
    return 0, i;
  }

  lemma BasesDiffer(t: seq<Entry>, start: Word, end: Word, i: nat, j: nat)
    requires TableOk(t, start, end) && i < |t| && j < |t| && i != j
    ensures t[i].base != t[j].base
  {
    var sp := PageSpans(t);
    assert sp[i].lo < sp[i].hi && sp[j].lo < sp[j].hi;
    assert if i < j then sp[i].hi <= sp[j].lo else sp[j].hi <= sp[i].lo;
  }

  /** Deleting the block just added gives back its size and restores the table exactly. */
  lemma DelUndoesAdd(t: seq<Entry>, t1: seq<Entry>, t2: seq<Entry>, k1: nat, k2: nat, base: Word,
                     size: Word, size': Word, start: Word, end: Word)
    requires Placed(t, t1, k1, base, size, start, end) && Deleted(t1, t2, k2, base, size')
    ensures size' == size && t2 == t
  {
    assert t1[k1] == Entry(base, size);
    if k2 < |t1| && k2 != k1 { BasesDiffer(t1, start, end, k1, k2); }
  }

  /** Deleting keeps the table sorted, disjoint and in its space. */
  lemma DelKeepsTable(t: seq<Entry>, t': seq<Entry>, k: nat, base: Word, size: Word, start: Word, end: Word)
    requires TableOk(t, start, end) && Deleted(t, t', k, base, size)
    ensures TableOk(t', start, end)
  {
    if k < |t| {
      RemoveKeepsSorted(PageSpans(t), start, end, k);
      assert PageSpans(t') == PageSpans(t)[..k] + PageSpans(t)[k + 1..];
    }
  }
}
