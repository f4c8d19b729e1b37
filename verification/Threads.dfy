/** How a free list is threaded through page headers: a circular doubly linked list in which
    `prev` walks down the addresses and `next` walks up (kernel/memory_manager.c). */
module Threads {
  import opened Words
  import opened FreeList

  datatype Header = Header(next: Word, prev: Word, size: Word)

  type Headers = map<nat, Header>

  function Addr(page: nat): nat { PAGE_SIZE * page }

  /** What `free_phys_memory_pointer` holds: the highest block, or -1. */
  function HeadOf(bl: seq<Block>): int { if bl == [] then NONE else Addr(bl[0].base) }

  /** The neighbour that `next` names: the block above, and the lowest one for the highest. */
  function Above(i: nat, n: nat): nat
    requires i < n
  { if i == 0 then n - 1 else i - 1 }

  /** The neighbour that `prev` names: the block below, and the highest one for the lowest. */
  function Below(i: nat, n: nat): nat
    requires i < n
  { if i + 1 == n then 0 else i + 1 }

  ghost predicate ThreadAt(h: Headers, bl: seq<Block>, i: nat)
    requires i < |bl|
  {
    && bl[i].base in h
    && h[bl[i].base].next == Addr(bl[Above(i, |bl|)].base)
    && h[bl[i].base].prev == Addr(bl[Below(i, |bl|)].base)
    && h[bl[i].base].size == bl[i].size
  }

  ghost predicate Threaded(h: Headers, bl: seq<Block>) {
    forall i :: 0 <= i < |bl| ==> ThreadAt(h, bl, i)
  }

  /** Only the headers of free frames matter to the list. */
  lemma OtherFrames(h: Headers, h': Headers, bl: seq<Block>)
    requires WellFormed(bl) && Threaded(h, bl)
    requires h.Keys <= h'.Keys && forall p | p in h && p in Pages(bl) :: h'[p] == h[p]
    ensures Threaded(h', bl)
  {
    forall i | 0 <= i < |bl| ensures ThreadAt(h', bl, i) {
      assert ThreadAt(h, bl, i);
      BlockOk(bl, i);
    }
  }

  // ----- the header writes of each branch, and the list they leave behind

  /** Exact fit: the two neighbours of block `i` are joined to each other. */
  function Unlinked(h: Headers, bl: seq<Block>, i: nat): Headers
    requires Near(h, bl, i)
  {
    var above, below := bl[Above(i, |bl|)].base, bl[Below(i, |bl|)].base;
    var h1 := h[above := h[above].(prev := h[bl[i].base].prev)];
    h1[below := h1[below].(next := h[bl[i].base].next)]
  }

  /** The frames whose headers an edit at block `i` may rewrite. */
  ghost function Touched(bl: seq<Block>, i: nat): set<nat>
    requires i < |bl|
  {
    {bl[i].base, bl[Above(i, |bl|)].base, bl[Below(i, |bl|)].base}
  }

  /** Only the size of block `i` changes. */
  function Resized(h: Headers, bl: seq<Block>, i: nat, size: Word): Headers
    requires Near(h, bl, i)
  {
    h[bl[i].base := h[bl[i].base].(size := size)]
  }

  /** A new block at `base` goes between block `i` and the one above it. */
  function LinkedAbove(h: Headers, bl: seq<Block>, i: nat, base: Word, count: Word): Headers
    requires Near(h, bl, i)
  {
    var cur, above := bl[i].base, bl[Above(i, |bl|)].base;
    var h1 := h[cur := h[cur].(next := base)];
    var h2 := h1[above := h1[above].(prev := base)];
    h2[base / PAGE_SIZE := Header(h[cur].next, Addr(cur), count)]
  }

  /** Block `i` is replaced by one that starts lower, at `base`. */
  function Lowered(h: Headers, bl: seq<Block>, i: nat, base: Word, size: Word): Headers
    requires Near(h, bl, i)
  {
    var cur, above, below := bl[i].base, bl[Above(i, |bl|)].base, bl[Below(i, |bl|)].base;
    var h1 := h[above := h[above].(prev := base)];
    var h2 := h1[below := h1[below].(next := base)];
    h2[base / PAGE_SIZE := Header(h[cur].next, h[cur].prev, size)]
  }

  /** Block `i` is swallowed by the block below it. */
  function Bridged(h: Headers, bl: seq<Block>, i: nat, size: Word): Headers
    requires Near(h, bl, i)
  {
    var cur, above, below := bl[i].base, bl[Above(i, |bl|)].base, bl[Below(i, |bl|)].base;
    var h1 := h[below := h[below].(next := h[cur].next)];
    var h2 := h1[below := h1[below].(size := size)];
    h2[above := h2[above].(prev := Addr(below))]
  }

  /** Block `i` and both its neighbours have headers. */
  ghost predicate Near(h: Headers, bl: seq<Block>, i: nat) {
    i < |bl| && ThreadAt(h, bl, i) && bl[Above(i, |bl|)].base in h && bl[Below(i, |bl|)].base in h
    && bl[i].base < PAGES && bl[Above(i, |bl|)].base < PAGES && bl[Below(i, |bl|)].base < PAGES
  }

  lemma IsNear(h: Headers, bl: seq<Block>, i: nat)
    requires WellFormed(bl) && Threaded(h, bl) && i < |bl|
    ensures Near(h, bl, i)
  {
    var above, below := Above(i, |bl|), Below(i, |bl|);
    assert ThreadAt(h, bl, i) && ThreadAt(h, bl, above) && ThreadAt(h, bl, below);
    BlockOk(bl, i);
    BlockOk(bl, above);
    BlockOk(bl, below);
  }

  /** Block `k` is block `i` or above or below it exactly when their bases say so. */
  lemma Apart(bl: seq<Block>, i: nat, k: nat)
    requires WellFormed(bl) && i < |bl| && k < |bl|
    ensures bl[k].base == bl[i].base <==> k == i
    ensures bl[k].base == bl[Above(i, |bl|)].base <==> k == Above(i, |bl|)
    ensures bl[k].base == bl[Below(i, |bl|)].base <==> k == Below(i, |bl|)
  {
    var above, below := Above(i, |bl|), Below(i, |bl|);
    if k != i { Distinct(bl, k, i); }
    if k != above { Distinct(bl, k, above); }
    if k != below { Distinct(bl, k, below); }
  }

  lemma TouchedIsFree(bl: seq<Block>, i: nat)
    requires WellFormed(bl) && i < |bl|
    ensures Touched(bl, i) <= Pages(bl)
  {
    BlockOk(bl, i);
    BlockOk(bl, Above(i, |bl|));
    BlockOk(bl, Below(i, |bl|));
  }

  lemma UnlinkedThreaded(h: Headers, bl: seq<Block>, i: nat)
    requires WellFormed(bl) && Threaded(h, bl) && Near(h, bl, i)
    ensures Threaded(Unlinked(h, bl, i), bl[..i] + bl[i + 1..])
  {
    hide WellFormed;
    var bl' := bl[..i] + bl[i + 1..];
    forall j | 0 <= j < |bl'| ensures ThreadAt(Unlinked(h, bl, i), bl', j) {
      var k := if j < i then j else j + 1;
      assert ThreadAt(h, bl, k);
      Apart(bl, i, k);
    }
  }

  lemma ResizedThreaded(h: Headers, bl: seq<Block>, i: nat, size: Word)
    requires WellFormed(bl) && Threaded(h, bl) && Near(h, bl, i)
    ensures Threaded(Resized(h, bl, i, size), bl[i := Block(bl[i].base, size)])
  {
    hide WellFormed;
    var bl' := bl[i := Block(bl[i].base, size)];
    forall j | 0 <= j < |bl'| ensures ThreadAt(Resized(h, bl, i, size), bl', j) {
      assert ThreadAt(h, bl, j);
      Apart(bl, i, j);
    }
  }

  lemma LinkedAboveThreaded(h: Headers, bl: seq<Block>, i: nat, blk: Block)
    requires WellFormed(bl) && Threaded(h, bl) && Near(h, bl, i)
    requires Addr(blk.base) < WORD_LIMIT && blk.size < WORD_LIMIT
    requires WellFormed(bl[..i] + ([blk] + bl[i..]))
    ensures Threaded(LinkedAbove(h, bl, i, Addr(blk.base), blk.size), bl[..i] + ([blk] + bl[i..]))
  {
    hide WellFormed;
    var bl' := bl[..i] + ([blk] + bl[i..]);
    forall j | 0 <= j < |bl'| ensures ThreadAt(LinkedAbove(h, bl, i, Addr(blk.base), blk.size), bl', j) {
      if j != i {
        var k := if j < i then j else j - 1;
        assert ThreadAt(h, bl, k);
        Apart(bl, i, k);
        Distinct(bl', i, j);
      }
    }
  }

  lemma LoweredThreaded(h: Headers, bl: seq<Block>, i: nat, blk: Block)
    requires WellFormed(bl) && Threaded(h, bl) && Near(h, bl, i)
    requires |bl| > 1
    requires Addr(blk.base) < WORD_LIMIT && blk.size < WORD_LIMIT
    requires WellFormed(bl[..i] + ([blk] + bl[i + 1..]))
    ensures Threaded(Lowered(h, bl, i, Addr(blk.base), blk.size), bl[..i] + ([blk] + bl[i + 1..]))
  {
    hide WellFormed;
    var bl' := bl[..i] + ([blk] + bl[i + 1..]);
    forall j | 0 <= j < |bl'| ensures ThreadAt(Lowered(h, bl, i, Addr(blk.base), blk.size), bl', j) {
      if j != i {
        assert ThreadAt(h, bl, j);
        Apart(bl, i, j);
        Distinct(bl', i, j);
      }
    }
  }

  lemma BridgedThreaded(h: Headers, bl: seq<Block>, i: nat, size: Word)
    requires WellFormed(bl) && Threaded(h, bl) && Near(h, bl, i)
    requires i + 1 < |bl|
    ensures Threaded(Bridged(h, bl, i, size), bl[..i] + ([Block(bl[i + 1].base, size)] + bl[i + 2..]))
  {
    hide WellFormed;
    var bl' := bl[..i] + ([Block(bl[i + 1].base, size)] + bl[i + 2..]);
    forall j | 0 <= j < |bl'| ensures ThreadAt(Bridged(h, bl, i, size), bl', j) {
      var k := if j < i then j else j + 1;
      assert ThreadAt(h, bl, k);
      assert ThreadAt(h, bl, i + 1);
      Apart(bl, i, k);
    }
  }

  // ----- each branch, seen as a step from one list to the next

  lemma TakeStep(h: Headers, bl: seq<Block>, i: nat) returns (bl': seq<Block>)
    requires WellFormed(bl) && Threaded(h, bl) && i < |bl|
    ensures Near(h, bl, i) && WellFormed(bl') && Threaded(Unlinked(h, bl, i), bl')
    ensures var prev := h[bl[i].base].prev;
            HeadOf(bl') == if i != 0 then HeadOf(bl) else if prev == Addr(bl[i].base) then NONE else prev
    ensures Pages(bl') == Pages(bl) - Range(bl[i].base, bl[i].size)
    ensures Sum(bl') == Sum(bl) - bl[i].size
  {
    hide WellFormed, Pages, Sum;
    IsNear(h, bl, i);
    UnlinkedThreaded(h, bl, i);
    FreeList.TakeWhole(bl, i);
    Apart(bl, i, Below(i, |bl|));
    bl' := bl[..i] + bl[i + 1..];
  }

  lemma CarveStep(h: Headers, bl: seq<Block>, i: nat, count: nat) returns (bl': seq<Block>)
    requires WellFormed(bl) && Threaded(h, bl) && i < |bl| && count < bl[i].size
    ensures Near(h, bl, i) && WellFormed(bl') && Threaded(Resized(h, bl, i, bl[i].size - count), bl')
    ensures HeadOf(bl') == HeadOf(bl)
    ensures Pages(bl') == Pages(bl) - Range(bl[i].End() - count, count)
    ensures Sum(bl') == Sum(bl) - count
    ensures count == 0 ==> bl' == bl
  {
    hide WellFormed, Pages, Sum;
    IsNear(h, bl, i);
    ResizedThreaded(h, bl, i, bl[i].size - count);
    Carve(bl, i, bl[i].size - count);
    bl' := bl[i := Block(bl[i].base, bl[i].size - count)];
  }

  /** What every branch of `free_phys_pages` does to the list. */
  ghost predicate Grown(bl: seq<Block>, base: nat, count: nat, bl': seq<Block>) {
    WellFormed(bl') && Pages(bl') == Pages(bl) + Range(base, count) && Sum(bl') == Sum(bl) + count
  }

  lemma AboveStep(h: Headers, bl: seq<Block>, i: nat, base: nat, count: nat) returns (bl': seq<Block>)
    requires WellFormed(bl) && Threaded(h, bl) && i < |bl| && Freeable(bl, base, count)
    requires ClearAbove(bl, i, base, count) && bl[i].End() < base
    ensures Near(h, bl, i) && Grown(bl, base, count, bl') && Threaded(LinkedAbove(h, bl, i, Addr(base), count), bl')
    ensures HeadOf(bl') == if i == 0 then Addr(base) else HeadOf(bl)
  {
    hide WellFormed, Pages, Sum;
    IsNear(h, bl, i);
    AddAbove(bl, i, base, count);
    LinkedAboveThreaded(h, bl, i, Block(base, count));
    bl' := bl[..i] + ([Block(base, count)] + bl[i..]);
  }

  lemma OnTopStep(h: Headers, bl: seq<Block>, i: nat, base: nat, count: nat) returns (bl': seq<Block>)
    requires WellFormed(bl) && Threaded(h, bl) && i < |bl| && Freeable(bl, base, count)
    requires ClearAbove(bl, i, base, count) && bl[i].End() == base
    ensures Near(h, bl, i) && Grown(bl, base, count, bl') && Threaded(Resized(h, bl, i, bl[i].size + count), bl')
    ensures HeadOf(bl') == HeadOf(bl)
    ensures h[bl[i].base].next != Addr(base + count)
  {
    hide WellFormed, Pages, Sum;
    IsNear(h, bl, i);
    AddOnTop(bl, i, base, count);
    BlockOk(bl, i);
    ResizedThreaded(h, bl, i, bl[i].size + count);
    NothingToMergeForward(bl, i, Above(i, |bl|), base, count);
    bl' := bl[i := Block(bl[i].base, bl[i].size + count)];
  }

  lemma BelowStep(h: Headers, bl: seq<Block>, i: nat, base: nat, count: nat) returns (bl': seq<Block>)
    requires WellFormed(bl) && Threaded(h, bl) && i < |bl| && Freeable(bl, base, count)
    requires |bl| > 1 && base + count == bl[i].base && (i + 1 < |bl| ==> bl[i + 1].End() != base)
    ensures Near(h, bl, i) && Grown(bl, base, count, bl') && count + bl[i].size < PAGES
    ensures Threaded(Lowered(h, bl, i, Addr(base), count + bl[i].size), bl')
    ensures HeadOf(bl') == if i == 0 then Addr(base) else HeadOf(bl)
  {
    hide WellFormed, Pages, Sum;
    IsNear(h, bl, i);
    AddBelow(bl, i, base, count);
    BlockOk(bl, i);
    LoweredThreaded(h, bl, i, Block(base, count + bl[i].size));
    bl' := bl[..i] + ([Block(base, count + bl[i].size)] + bl[i + 1..]);
  }

  lemma BetweenStep(h: Headers, bl: seq<Block>, i: nat, base: nat, count: nat) returns (bl': seq<Block>)
    requires WellFormed(bl) && Threaded(h, bl) && i + 1 < |bl| && Freeable(bl, base, count)
    requires base + count == bl[i].base && bl[i + 1].End() == base
    ensures Near(h, bl, i) && Grown(bl, base, count, bl') && bl[i + 1].size + bl[i].size + count < PAGES
    ensures Threaded(Bridged(h, bl, i, bl[i + 1].size + bl[i].size + count), bl')
    ensures HeadOf(bl') == if i == 0 then Addr(bl[i + 1].base) else HeadOf(bl)
  {
    hide WellFormed, Pages, Sum;
    IsNear(h, bl, i);
    AddBetween(bl, i, base, count);
    BlockOk(bl, i);
    BridgedThreaded(h, bl, i, bl[i + 1].size + bl[i].size + count);
    bl' := bl[..i] + ([Block(bl[i + 1].base, bl[i + 1].size + bl[i].size + count)] + bl[i + 2..]);
  }

  /** A single block names itself in both directions. */
  lemma FirstBlock(h: Headers, base: nat, count: nat) returns (bl: seq<Block>)
    requires 0 < count && base + count < PAGES && base in h
    requires h[base] == Header(Addr(base), Addr(base), count)
    ensures Grown([], base, count, bl) && Threaded(h, bl) && HeadOf(bl) == Addr(base)
  {
    bl := [Block(base, count)];
    Single(bl[0]);
    assert ThreadAt(h, bl, 0);
  }

  // ----- the shape of the cycle

  /** `next` and `prev` are inverse to each other all round the cycle, the head pointer is the
      highest block, and `prev` goes strictly down except from the lowest block back to the head. */
  lemma LinksAreInverse(h: Headers, bl: seq<Block>, i: nat)
    requires WellFormed(bl) && Threaded(h, bl) && i < |bl|
    ensures Near(h, bl, i)
    ensures var cur := h[bl[i].base];
            && cur.prev / PAGE_SIZE in h && h[cur.prev / PAGE_SIZE].next == Addr(bl[i].base)
            && cur.next / PAGE_SIZE in h && h[cur.next / PAGE_SIZE].prev == Addr(bl[i].base)
            && Addr(bl[i].base) <= HeadOf(bl)
            && (if i + 1 < |bl| then cur.prev < Addr(bl[i].base) else cur.prev == HeadOf(bl))
  {
    IsNear(h, bl, i);
    assert ThreadAt(h, bl, Above(i, |bl|)) && ThreadAt(h, bl, Below(i, |bl|));
    if i > 0 { Order(bl, 0, i); }
    if i + 1 < |bl| { Order(bl, i, i + 1); }
  }

  // ----- a thread determines the list

  lemma {:induction false} ThreadPrefix(h: Headers, a: seq<Block>, b: seq<Block>, i: nat)
    requires WellFormed(a) && WellFormed(b) && Threaded(h, a) && Threaded(h, b)
    requires i < |a| && i < |b| && a[0].base == b[0].base
    ensures a[i] == b[i]
  {
    if i > 0 {
      ThreadPrefix(h, a, b, i - 1);
      assert ThreadAt(h, a, i - 1) && ThreadAt(h, b, i - 1);
    }
    assert ThreadAt(h, a, i) && ThreadAt(h, b, i);
  }

  lemma ThreadNotShorter(h: Headers, a: seq<Block>, b: seq<Block>)
    requires WellFormed(a) && WellFormed(b) && Threaded(h, a) && Threaded(h, b)
    requires a != [] && b != [] && a[0].base == b[0].base
    ensures |b| <= |a|
  {
    if |a| < |b| {
      var n := |a|;
      ThreadPrefix(h, a, b, n - 1);
      assert ThreadAt(h, a, n - 1) && ThreadAt(h, b, n - 1);
      Distinct(b, 0, n);
    }
  }

  /** Two well-formed lists threaded through the same headers from the same head are equal. */
  lemma ThreadUnique(h: Headers, a: seq<Block>, b: seq<Block>)
    requires WellFormed(a) && WellFormed(b) && Threaded(h, a) && Threaded(h, b)
    requires HeadOf(a) == HeadOf(b)
    ensures a == b
  {
    if a != [] && b != [] {
      ThreadNotShorter(h, a, b);
      ThreadNotShorter(h, b, a);
      forall i | 0 <= i < |a| ensures a[i] == b[i] { ThreadPrefix(h, a, b, i); }
    }
  }

  /** Lowering the only block leaves its old header in the cycle, which then runs upwards. */
  lemma LoneLoweredNotThreaded(h: Headers, bl: seq<Block>, base: Word, size: Word, bl': seq<Block>)
    requires |bl| == 1 && Near(h, bl, 0) && base % PAGE_SIZE == 0 && base < Addr(bl[0].base)
    requires WellFormed(bl') && HeadOf(bl') == base
    ensures !Threaded(Lowered(h, bl, 0, base, size), bl')
  {
    var h' := Lowered(h, bl, 0, base, size);
    if |bl'| > 1 { Order(bl', 0, 1); }
    assert bl' != [] ==> !ThreadAt(h', bl', 0);
  }
}
