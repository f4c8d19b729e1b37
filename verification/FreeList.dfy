/** The abstract free list of physical pages: a sequence of blocks, highest first.
    Everything here is in page numbers; `PhysMem` holds the byte addresses and the links. */
module FreeList {
  /** Number of 4 KiB frames a 32-bit physical address can name. */
  const PAGES := 0x10_0000

  datatype Block = Block(base: nat, size: nat) {
    function End(): nat { base + size }
  }

  /** Strictly descending, a gap of at least one page between neighbours (fully coalesced),
      and no block reaching the last frame, so that no end address wraps to 0. */
  ghost predicate WellFormed(bl: seq<Block>) {
    bl != [] ==>
      && 0 < bl[0].size && bl[0].End() < PAGES
      && (|bl| > 1 ==> bl[1].End() < bl[0].base)
      && WellFormed(bl[1..])
  }

  /** The frames base, base + 1, ..., base + count - 1. */
  ghost function Range(base: nat, count: nat): (r: set<nat>)
    ensures forall p :: p in r <==> base <= p < base + count
  {
    if count == 0 then {} else Range(base, count - 1) + {base + count - 1}
  }

  ghost function Pages(bl: seq<Block>): set<nat> {
    if bl == [] then {} else Range(bl[0].base, bl[0].size) + Pages(bl[1..])
  }

  ghost function Sum(bl: seq<Block>): nat {
    if bl == [] then 0 else bl[0].size + Sum(bl[1..])
  }

  // ----- order and membership

  lemma {:induction false} BlockOk(bl: seq<Block>, i: nat)
    requires WellFormed(bl) && i < |bl|
    ensures 0 < bl[i].size && bl[i].End() < PAGES
    ensures bl[i].base in Pages(bl)
    ensures Range(bl[i].base, bl[i].size) <= Pages(bl)
    ensures bl[i].size <= Sum(bl)
  {
    if i > 0 {
      BlockOk(bl[1..], i - 1);
    }
  }

  lemma {:induction false} Order(bl: seq<Block>, i: nat, j: nat)
    requires WellFormed(bl) && i < j < |bl|
    ensures bl[j].End() < bl[i].base
  {
    if i > 0 {
      Order(bl[1..], i - 1, j - 1);
    } else if j > 1 {
      Order(bl[1..], 0, j - 1);
    }
  }

  lemma Distinct(bl: seq<Block>, i: nat, j: nat)
    requires WellFormed(bl) && i < |bl| && j < |bl| && i != j
    ensures bl[i].base != bl[j].base
  {
    Order(bl, if i < j then i else j, if i < j then j else i);
  }

  lemma {:induction false} PageInBlock(bl: seq<Block>, p: nat) returns (i: nat)
    requires p in Pages(bl)
    ensures i < |bl| && bl[i].base <= p < bl[i].End()
  {
    if p in Range(bl[0].base, bl[0].size) {
      i := 0;
    } else {
      i := PageInBlock(bl[1..], p);
      i := i + 1;
    }
  }

  lemma HeadAboveRest(bl: seq<Block>)
    requires WellFormed(bl) && bl != []
    ensures forall p | p in Pages(bl[1..]) :: p + 1 < bl[0].base
  {
    forall p | p in Pages(bl[1..]) ensures p + 1 < bl[0].base {
      var i := PageInBlock(bl[1..], p);
      Order(bl, 0, i + 1);
    }
  }

  // ----- size

  lemma {:induction false} RangeSize(base: nat, count: nat)
    ensures |Range(base, count)| == count
  {
    if count > 0 {
      RangeSize(base, count - 1);
    }
  }

  /** The counter invariant: the sum of the block sizes is the number of free pages. */
  lemma {:induction false} SumIsCardinality(bl: seq<Block>)
    requires WellFormed(bl)
    ensures |Pages(bl)| == Sum(bl)
  {
    if bl != [] {
      SumIsCardinality(bl[1..]);
      HeadAboveRest(bl);
      RangeSize(bl[0].base, bl[0].size);
      assert Range(bl[0].base, bl[0].size) !! Pages(bl[1..]);
    }
  }

  lemma {:induction false} SumBound(bl: seq<Block>)
    requires WellFormed(bl) && bl != []
    ensures Sum(bl) <= bl[0].End() - bl[|bl| - 1].base
  {
    if |bl| == 1 {
      assert bl[1..] == [];
    } else {
      SumBound(bl[1..]);
    }
  }

  // ----- coalescing makes the list canonical

  /** Because neighbours never touch, consecutive free pages lie inside a single block. */
  lemma {:induction false} RunInOneBlock(bl: seq<Block>, p: nat, count: nat) returns (i: nat)
    requires WellFormed(bl) && 0 < count && Range(p, count) <= Pages(bl)
    ensures i < |bl| && bl[i].base <= p && p + count <= bl[i].End()
  {
    var last := p + count - 1;
    assert last in Range(p, count);
    i := PageInBlock(bl, last);
    if count > 1 {
      assert Range(p, count - 1) <= Range(p, count);
      var k := RunInOneBlock(bl, p, count - 1);
      if k != i {
        Order(bl, if k < i then k else i, if k < i then i else k);
      }
    }
  }

  lemma Nonempty(bl: seq<Block>)
    requires WellFormed(bl) && bl != []
    ensures Pages(bl) != {}
  {
    BlockOk(bl, 0);
  }

  lemma SameHead(a: seq<Block>, b: seq<Block>)
    requires WellFormed(a) && WellFormed(b) && Pages(a) == Pages(b) && a != [] && b != []
    ensures a[0].End() <= b[0].End() && (a[0].End() == b[0].End() ==> b[0].base <= a[0].base)
  {
    BlockOk(a, 0);
    var i := RunInOneBlock(b, a[0].base, a[0].size);
    if i > 0 { Order(b, 0, i); }
  }

  /** A well-formed list is determined by its set of pages. */
  lemma {:induction false} Canonical(a: seq<Block>, b: seq<Block>)
    requires WellFormed(a) && WellFormed(b) && Pages(a) == Pages(b)
    ensures a == b
  {
    if a == [] {
      if b != [] { Nonempty(b); }
    } else if b == [] {
      Nonempty(a);
    } else {
      SameHead(a, b);
      SameHead(b, a);
      HeadAboveRest(a);
      HeadAboveRest(b);
      var top := Range(a[0].base, a[0].size);
      assert Pages(a[1..]) == Pages(a) - top;
      assert Pages(b[1..]) == Pages(b) - top;
      Canonical(a[1..], b[1..]);
      assert a == [a[0]] + a[1..] && b == [b[0]] + b[1..];
    }
  }

  // ----- taking blocks out and putting them in

  lemma {:induction false} Concat(a: seq<Block>, b: seq<Block>)
    ensures Pages(a + b) == Pages(a) + Pages(b)
    ensures Sum(a + b) == Sum(a) + Sum(b)
  {
    if a == [] {
      assert a + b == b;
    } else {
      assert (a + b)[1..] == a[1..] + b;
      Concat(a[1..], b);
    }
  }

  lemma {:induction false} Split(a: seq<Block>, b: seq<Block>)
    requires WellFormed(a + b)
    ensures WellFormed(a) && WellFormed(b)
    ensures a != [] && b != [] ==> b[0].End() < a[|a| - 1].base
    ensures Pages(a) !! Pages(b)
  {
    if a == [] {
      assert a + b == b;
    } else {
      var ab := a + b;
      assert ab[1..] == a[1..] + b && ab[0] == a[0];
      HeadAboveRest(ab);
      Split(a[1..], b);
      Concat(a[1..], b);
    }
  }

  lemma {:induction false} Join(a: seq<Block>, b: seq<Block>)
    requires WellFormed(a) && WellFormed(b)
    requires a != [] && b != [] ==> b[0].End() < a[|a| - 1].base
    ensures WellFormed(a + b)
  {
    if a == [] {
      assert a + b == b;
    } else {
      assert (a + b)[1..] == a[1..] + b;
      Join(a[1..], b);
    }
  }

  lemma Single(blk: Block)
    ensures Pages([blk]) == Range(blk.base, blk.size) && Sum([blk]) == blk.size
  {
    assert [blk][1..] == [];
  }

  /** Taking a segment out of the list removes exactly its pages. */
  lemma Remove(a: seq<Block>, mid: seq<Block>, c: seq<Block>)
    requires WellFormed(a + (mid + c))
    ensures WellFormed(a + c)
    ensures Pages(a + c) == Pages(a + (mid + c)) - Pages(mid)
    ensures Pages(mid) <= Pages(a + (mid + c))
    ensures Sum(a + c) == Sum(a + (mid + c)) - Sum(mid)
  {
    Split(a, mid + c);
    Split(mid, c);
    Concat(a, mid + c);
    Concat(mid, c);
    Concat(a, c);
    if a != [] && c != [] {
      var all := a + (mid + c);
      assert c[0] == all[|a| + |mid|] && a[|a| - 1] == all[|a| - 1];
      Order(all, |a| - 1, |a| + |mid|);
    }
    Join(a, c);
  }

  /** Putting one block into a gap that leaves a page free on both sides adds exactly its pages. */
  lemma Insert(a: seq<Block>, blk: Block, c: seq<Block>)
    requires WellFormed(a + c)
    requires 0 < blk.size && blk.End() < PAGES
    requires a != [] ==> blk.End() < a[|a| - 1].base
    requires c != [] ==> c[0].End() < blk.base
    ensures WellFormed(a + ([blk] + c))
    ensures Pages(a + ([blk] + c)) == Pages(a + c) + Range(blk.base, blk.size)
    ensures Sum(a + ([blk] + c)) == Sum(a + c) + blk.size
  {
    Split(a, c);
    assert ([blk] + c)[1..] == c;
    Join(a, [blk] + c);
    Single(blk);
    Concat(a, [blk] + c);
    Concat([blk], c);
    Concat(a, c);
  }

  /** Putting one block in place of a segment. */
  lemma Replace(a: seq<Block>, mid: seq<Block>, c: seq<Block>, blk: Block)
    requires WellFormed(a + (mid + c))
    requires 0 < blk.size && blk.End() < PAGES
    requires a != [] ==> blk.End() < a[|a| - 1].base
    requires c != [] ==> c[0].End() < blk.base
    ensures WellFormed(a + ([blk] + c))
    ensures Pages(mid) <= Pages(a + (mid + c))
    ensures Pages(a + ([blk] + c)) == Pages(a + (mid + c)) - Pages(mid) + Range(blk.base, blk.size)
    ensures Sum(a + ([blk] + c)) == Sum(a + (mid + c)) - Sum(mid) + blk.size
  {
    hide WellFormed, Pages, Sum;
    Remove(a, mid, c);
    Insert(a, blk, c);
  }

  lemma TakeWhole(bl: seq<Block>, i: nat)
    requires WellFormed(bl) && i < |bl|
    ensures WellFormed(bl[..i] + bl[i + 1..])
    ensures Pages(bl[..i] + bl[i + 1..]) == Pages(bl) - Range(bl[i].base, bl[i].size)
    ensures Sum(bl[..i] + bl[i + 1..]) == Sum(bl) - bl[i].size
  {
    hide WellFormed, Pages, Sum;
    assert bl == bl[..i] + ([bl[i]] + bl[i + 1..]);
    Remove(bl[..i], [bl[i]], bl[i + 1..]);
    Single(bl[i]);
  }

  /** Keeping only the first `size` pages of block `i` gives up the pages above them. */
  lemma Carve(bl: seq<Block>, i: nat, size: nat)
    requires WellFormed(bl) && i < |bl| && 0 < size <= bl[i].size
    ensures WellFormed(bl[i := Block(bl[i].base, size)])
    ensures Pages(bl[i := Block(bl[i].base, size)])
         == Pages(bl) - Range(bl[i].base + size, bl[i].size - size)
    ensures Sum(bl[i := Block(bl[i].base, size)]) == Sum(bl) - (bl[i].size - size)
  {
    hide WellFormed, Pages, Sum;
    var blk := Block(bl[i].base, size);
    BlockOk(bl, i);
    if i > 0 { Order(bl, i - 1, i); }
    if i + 1 < |bl| { Order(bl, i, i + 1); }
    assert bl[i := blk] == bl[..i] + ([blk] + bl[i + 1..]);
    assert bl == bl[..i] + ([bl[i]] + bl[i + 1..]);
    Replace(bl[..i], [bl[i]], bl[i + 1..], blk);
    Single(bl[i]);
  }

  // ----- giving pages back

  /** The pages `base`..`base + count - 1` can be given back without losing or duplicating any:
      the free list is empty, or it has a block starting below `base`, or the range ends exactly
      at the lowest of several blocks. */
  predicate Covered(bl: seq<Block>, base: nat, count: nat) {
    || bl == []
    || bl[|bl| - 1].base < base
    || (|bl| > 1 && base + count == bl[|bl| - 1].base)
  }

  /** A range of pages none of which is free, and which stays clear of the last frame. */
  ghost predicate Freeable(bl: seq<Block>, base: nat, count: nat) {
    0 < count && base + count < PAGES && Range(base, count) !! Pages(bl)
  }

  /** A taken range lies wholly above or wholly below each free block. */
  lemma Beside(bl: seq<Block>, i: nat, base: nat, count: nat)
    requires WellFormed(bl) && i < |bl| && Freeable(bl, base, count)
    ensures bl[i].End() <= base || base + count <= bl[i].base
  {
    BlockOk(bl, i);
    var p := if base < bl[i].base then bl[i].base else base;
    assert p in Range(base, count) <==> p < base + count;
    assert p in Range(bl[i].base, bl[i].size) <==> p < bl[i].End();
  }

  /** Whether the range is covered, read off the block that the walk stops at. */
  lemma CoveredAt(bl: seq<Block>, i: nat, base: nat, count: nat)
    requires WellFormed(bl) && i < |bl| && Freeable(bl, base, count)
    ensures bl[i].End() <= base ==> Covered(bl, base, count)
    ensures base + count == bl[i].base ==> (Covered(bl, base, count) <==> |bl| > 1)
    ensures i + 1 == |bl| && base + count < bl[i].base ==> !Covered(bl, base, count)
  {
    var last := |bl| - 1;
    BlockOk(bl, i);
    BlockOk(bl, last);
    if i < last {
      Order(bl, i, last);
      Beside(bl, last, base, count);
    }
  }

  /** The walk from the top reaches block `i` only when every block above it keeps a gap. */
  ghost predicate ClearAbove(bl: seq<Block>, i: nat, base: nat, count: nat) {
    i <= |bl| && (i > 0 ==> base + count < bl[i - 1].base)
  }

  lemma AddAbove(bl: seq<Block>, i: nat, base: nat, count: nat)
    requires WellFormed(bl) && i < |bl| && Freeable(bl, base, count) && ClearAbove(bl, i, base, count)
    requires bl[i].End() < base
    ensures WellFormed(bl[..i] + ([Block(base, count)] + bl[i..]))
    ensures Pages(bl[..i] + ([Block(base, count)] + bl[i..])) == Pages(bl) + Range(base, count)
    ensures Sum(bl[..i] + ([Block(base, count)] + bl[i..])) == Sum(bl) + count
  {
    hide WellFormed, Pages, Sum;
    assert bl == bl[..i] + bl[i..];
    Insert(bl[..i], Block(base, count), bl[i..]);
  }

  lemma AddOnTop(bl: seq<Block>, i: nat, base: nat, count: nat)
    requires WellFormed(bl) && i < |bl| && Freeable(bl, base, count) && ClearAbove(bl, i, base, count)
    requires bl[i].End() == base
    ensures WellFormed(bl[i := Block(bl[i].base, bl[i].size + count)])
    ensures Pages(bl[i := Block(bl[i].base, bl[i].size + count)]) == Pages(bl) + Range(base, count)
    ensures Sum(bl[i := Block(bl[i].base, bl[i].size + count)]) == Sum(bl) + count
  {
    hide WellFormed, Pages, Sum;
    var blk := Block(bl[i].base, bl[i].size + count);
    BlockOk(bl, i);
    if i + 1 < |bl| { Order(bl, i, i + 1); }
    assert bl[i := blk] == bl[..i] + ([blk] + bl[i + 1..]);
    assert bl == bl[..i] + ([bl[i]] + bl[i + 1..]);
    Replace(bl[..i], [bl[i]], bl[i + 1..], blk);
    Single(bl[i]);
  }

  lemma AddBelow(bl: seq<Block>, i: nat, base: nat, count: nat)
    requires WellFormed(bl) && i < |bl| && Freeable(bl, base, count)
    requires base + count == bl[i].base && (i + 1 < |bl| ==> bl[i + 1].End() != base)
    ensures WellFormed(bl[..i] + ([Block(base, count + bl[i].size)] + bl[i + 1..]))
    ensures Pages(bl[..i] + ([Block(base, count + bl[i].size)] + bl[i + 1..])) == Pages(bl) + Range(base, count)
    ensures Sum(bl[..i] + ([Block(base, count + bl[i].size)] + bl[i + 1..])) == Sum(bl) + count
  {
    hide WellFormed, Pages, Sum;
    BlockOk(bl, i);
    if i > 0 { Order(bl, i - 1, i); }
    if i + 1 < |bl| { Order(bl, i, i + 1); Beside(bl, i + 1, base, count); }
    assert bl == bl[..i] + ([bl[i]] + bl[i + 1..]);
    Replace(bl[..i], [bl[i]], bl[i + 1..], Block(base, count + bl[i].size));
    Single(bl[i]);
  }

  lemma AddBetween(bl: seq<Block>, i: nat, base: nat, count: nat)
    requires WellFormed(bl) && i + 1 < |bl| && Freeable(bl, base, count)
    requires base + count == bl[i].base && bl[i + 1].End() == base
    ensures var blk := Block(bl[i + 1].base, bl[i + 1].size + bl[i].size + count);
            var bl' := bl[..i] + ([blk] + bl[i + 2..]);
            WellFormed(bl') && Pages(bl') == Pages(bl) + Range(base, count) && Sum(bl') == Sum(bl) + count
  {
    hide WellFormed, Pages, Sum;
    var blk := Block(bl[i + 1].base, bl[i + 1].size + bl[i].size + count);
    var mid := [bl[i]] + [bl[i + 1]];
    BlockOk(bl, i);
    BlockOk(bl, i + 1);
    if i > 0 { Order(bl, i - 1, i); }
    if i + 2 < |bl| { Order(bl, i + 1, i + 2); }
    assert bl == bl[..i] + (mid + bl[i + 2..]);
    Replace(bl[..i], mid, bl[i + 2..], blk);
    Concat([bl[i]], [bl[i + 1]]);
    Single(bl[i]);
    Single(bl[i + 1]);
  }

  /** When the range starts where block `i` ends, no free block starts where the range ends:
      such a block is the one above, and the walk would have stopped there. */
  lemma NothingToMergeForward(bl: seq<Block>, i: nat, k: nat, base: nat, count: nat)
    requires WellFormed(bl) && i < |bl| && k < |bl| && Freeable(bl, base, count)
    requires ClearAbove(bl, i, base, count) && bl[i].End() == base
    ensures bl[k].base != base + count
  {
    if k > i {
      Order(bl, i, k);
    } else if k + 1 < i {
      Order(bl, k, i - 1);
    }
  }

  // ----- what a first-fit walk from the top finds

  /** `p` is the highest page at which `count` consecutive pages of `free` start. */
  ghost predicate HighestRun(free: set<nat>, p: nat, count: nat) {
    Range(p, count) <= free && forall q: nat | Range(q, count) <= free :: q <= p
  }

  ghost predicate NoRun(free: set<nat>, count: nat) {
    forall q: nat :: !(Range(q, count) <= free)
  }

  /** The first block from the top that is large enough ends with the highest run that fits. */
  lemma FirstFitIsHighest(bl: seq<Block>, i: nat, count: nat)
    requires WellFormed(bl) && i < |bl| && 0 < count <= bl[i].size
    requires forall j | 0 <= j < i :: bl[j].size < count
    ensures HighestRun(Pages(bl), bl[i].End() - count, count)
  {
    BlockOk(bl, i);
    assert Range(bl[i].End() - count, count) <= Range(bl[i].base, bl[i].size);
    forall p: nat | Range(p, count) <= Pages(bl) ensures p <= bl[i].End() - count {
      var k := RunInOneBlock(bl, p, count);
      if k != i { Order(bl, if k < i then k else i, if k < i then i else k); }
    }
  }

  lemma NoFit(bl: seq<Block>, count: nat)
    requires WellFormed(bl) && 0 < count
    requires forall j | 0 <= j < |bl| :: bl[j].size < count
    ensures NoRun(Pages(bl), count)
  {
    forall p: nat ensures !(Range(p, count) <= Pages(bl)) {
      if Range(p, count) <= Pages(bl) {
        var k := RunInOneBlock(bl, p, count);
      }
    }
  }

  /** A free list with fewer pages than asked for has no run of that length. */
  lemma TooFew(bl: seq<Block>, count: nat)
    requires WellFormed(bl) && Sum(bl) < count
    ensures NoRun(Pages(bl), count)
  {
    forall j | 0 <= j < |bl| ensures bl[j].size < count { BlockOk(bl, j); }
    NoFit(bl, count);
  }

  /** A single page is to be had exactly when the list is not exhausted. */
  lemma OnePage(bl: seq<Block>)
    requires WellFormed(bl)
    ensures NoRun(Pages(bl), 1) <==> Sum(bl) == 0
  {
    if bl == [] {
      TooFew(bl, 1);
    } else {
      BlockOk(bl, 0);
      assert Range(bl[0].base, 1) <= Range(bl[0].base, bl[0].size);
    }
  }
}
