/** Who holds each physical page: the free list, a page table, or one virtual page. The facts here
    are about values; `VirtMemory` keeps them true of memory. */
module Ownership {
  import opened Words
  import opened FreeList
  import opened Paging

  /** Virtual page to frame, for the pages of live anonymous blocks. */
  type Owners = map<nat, nat>

  ghost predicate Injective(owner: Owners) {
    forall u, v | u in owner && v in owner && u != v :: owner[u] != owner[v]
  }

  /** Each owned page is mapped to its frame, no two to the same frame, and no owned frame is
      free, a page table or the directory. */
  ghost predicate OwnedApart(owner: Owners, mp: map<nat, Word>, free: set<nat>, tables: set<nat>, pd: nat) {
    && (forall v | v in owner :: v in mp && FrameOf(mp[v]) == owner[v])
    && Apart(owner, free, tables)
    && (forall v | v in owner :: owner[v] != pd)
  }

  /** Owned frames are neither shared nor free nor page tables. */
  ghost predicate Apart(owner: Owners, free: set<nat>, tables: set<nat>) {
    Injective(owner) && forall v | v in owner :: owner[v] !in free && owner[v] !in tables
  }

  ghost predicate Holds(owner: Owners, p: nat) {
    exists v :: v in owner && owner[v] == p
  }

  /** The managed frames are the free ones, the page tables and the owned ones. */
  ghost predicate Accounted(managed: set<nat>, owner: Owners, free: set<nat>, tables: set<nat>) {
    && (forall p :: p in managed <==> p in free || p in tables || Holds(owner, p))
    && free !! tables
  }

  /** A managed frame is in exactly one place: free, or a page table, or one owned virtual page. */
  lemma ExactlyOnePlace(managed: set<nat>, owner: Owners, free: set<nat>, tables: set<nat>, p: nat)
    requires Apart(owner, free, tables) && Accounted(managed, owner, free, tables) && p in managed
    ensures (if p in free then 1 else 0) + (if p in tables then 1 else 0)
          + |set v | v in owner && owner[v] == p| == 1
  {
    var holders := set v | v in owner && owner[v] == p;
    if p in free || p in tables {
      assert holders == {};
    } else {
      var v :| v in owner && owner[v] == p;
      assert holders == {v};
    }
  }

  /** Handing the free frame `f` to virtual page `v`; `t` may have gone from free to tables. */
  lemma GainPage(
    managed: set<nat>, owner: Owners, mp: map<nat, Word>, free: set<nat>, tables: set<nat>, pd: nat,
    v: nat, f: nat, mp': map<nat, Word>, free': set<nat>, tables': set<nat>)
    requires OwnedApart(owner, mp, free, tables, pd) && Accounted(managed, owner, free, tables)
    requires v !in owner && f in free && f != pd
    requires free' <= free - {f} && free' + tables' == (free - {f}) + tables && free' !! tables'
    requires KeepsOthers(mp, mp', {v}) && v in mp' && FrameOf(mp'[v]) == f
    ensures OwnedApart(owner[v := f], mp', free', tables', pd)
    ensures Accounted(managed, owner[v := f], free', tables')
  {
    var owner' := owner[v := f];
    forall p ensures Holds(owner', p) <==> Holds(owner, p) || p == f {
      assert owner'[v] == f;
      if u :| u in owner && owner[u] == p { assert owner'[u] == p; }
    }
    forall u | u in owner' ensures owner'[u] !in free' + tables' && owner'[u] != pd {}
    forall u | u in owner' ensures u in mp' && FrameOf(mp'[u]) == owner'[u] {
      if u != v { assert u in owner; }
    }
  }

  /** Giving the frame of virtual page `v` back to the free set. */
  lemma LosePage(
    managed: set<nat>, owner: Owners, mp: map<nat, Word>, free: set<nat>, tables: set<nat>, pd: nat, v: nat)
    requires OwnedApart(owner, mp, free, tables, pd) && Accounted(managed, owner, free, tables)
    requires v in owner
    ensures OwnedApart(owner - {v}, mp, free + {owner[v]}, tables, pd)
    ensures Accounted(managed, owner - {v}, free + {owner[v]}, tables)
  {
    var owner' := owner - {v};
    forall p ensures Holds(owner, p) <==> Holds(owner', p) || p == owner[v] {
      if u :| u in owner && owner[u] == p && u != v { assert owner'[u] == p; }
    }
  }

  /** Mapping a page that nobody owns leaves the owned pages alone. */
  lemma KeepPages(
    managed: set<nat>, owner: Owners, mp: map<nat, Word>, free: set<nat>, tables: set<nat>, pd: nat,
    v: nat, mp': map<nat, Word>, free': set<nat>, tables': set<nat>)
    requires OwnedApart(owner, mp, free, tables, pd) && Accounted(managed, owner, free, tables)
    requires v !in owner && free' + tables' == free + tables && free' !! tables'
    requires KeepsOthers(mp, mp', {v})
    ensures OwnedApart(owner, mp', free', tables', pd) && Accounted(managed, owner, free', tables')
  {
    forall u | u in owner ensures owner[u] !in free' + tables' {}
  }

  /** `b` is `a` with the pages of `more` added. */
  ghost predicate Extends(a: Owners, b: Owners, more: set<nat>) {
    b.Keys == a.Keys + more && forall v | v in a :: b[v] == a[v]
  }

  lemma ExtendsNone(a: Owners, vp: nat)
    ensures Extends(a, a, Range(vp, 0))
  {}

  lemma ExtendsOne(a: Owners, b: Owners, c: Owners, vp: nat, i: nat)
    requires Extends(a, b, Range(vp, i)) && Extends(b, c, {vp + i})
    ensures Extends(a, c, Range(vp, i + 1))
  {}

  lemma NotYet(a: Owners, b: Owners, vp: nat, i: nat, count: nat)
    requires Extends(a, b, Range(vp, i)) && i < count && Range(vp, count) !! a.Keys
    ensures vp + i !in b
  {}

  /** The frames behind these pages lie above every free page. */
  ghost predicate OnTop(owner: Owners, pages: set<nat>, free: set<nat>) {
    forall v, q | v in pages && v in owner && q in free :: q < owner[v]
  }

  lemma OnTopNone(owner: Owners, vp: nat, free: set<nat>)
    ensures OnTop(owner, Range(vp, 0), free)
  {}

  lemma OnTopOne(a: Owners, b: Owners, c: Owners, vp: nat, i: nat, free: set<nat>, free': set<nat>)
    requires Extends(a, b, Range(vp, i)) && Extends(b, c, {vp + i})
    requires OnTop(b, Range(vp, i), free) && OnTop(c, {vp + i}, free') && free' <= free
    ensures OnTop(c, Range(vp, i + 1), free')
  {
    forall v, q | v in Range(vp, i + 1) && v in c && q in free' ensures q < c[v] {
      if v != vp + i { assert v in Range(vp, i) && v in b; }
    }
  }

  /** The frames behind these pages come from `free`, each below the frames of the pages before. */
  ghost predicate Descending(owner: Owners, pages: set<nat>, free: set<nat>) {
    && (forall v | v in pages && v in owner :: owner[v] in free)
    && (forall u, v | u in pages && v in pages && u in owner && v in owner && u < v :: owner[v] < owner[u])
  }

  lemma DescendingNone(owner: Owners, vp: nat, free: set<nat>)
    ensures Descending(owner, Range(vp, 0), free)
  {}

  /** A free frame is below the frames that are on top of all the free ones. */
  lemma DescendingOne(
    a: Owners, b: Owners, c: Owners, vp: nat, i: nat, start: set<nat>, free: set<nat>)
    requires Extends(a, b, Range(vp, i)) && Extends(b, c, {vp + i})
    requires Descending(b, Range(vp, i), start) && OnTop(b, Range(vp, i), free) && free <= start
    requires vp + i in c && c[vp + i] in free
    ensures Descending(c, Range(vp, i + 1), start)
  {
    hide Range;
    RangeStep(vp, i);
    forall v | v in Range(vp, i) && v in c ensures v in b && c[v] == b[v] && c[vp + i] < c[v] {}
  }

  lemma RangeStep(vp: nat, i: nat)
    ensures forall v :: v in Range(vp, i + 1) <==> v in Range(vp, i) || v == vp + i
  {}

  // ----- frees one page at a time

  /** Giving back page `f` is one of the cases that `free_phys_pages` handles. */
  ghost predicate CoveredPage(free: set<nat>, f: nat) {
    forall bl | WellFormed(bl) && Pages(bl) == free :: Covered(bl, f, 1)
  }

  /** So is giving back all these pages in turn. */
  ghost predicate CoveredRun(free: set<nat>, frames: seq<nat>)
    decreases |frames|
  {
    frames != [] ==> CoveredPage(free, frames[0]) && CoveredRun(free + {frames[0]}, frames[1..])
  }

  /** A free page below all of the frames is enough. */
  lemma {:induction false} LowPageCovers(free: set<nat>, frames: seq<nat>, low: nat)
    requires low in free && forall i | 0 <= i < |frames| :: low < frames[i]
    ensures CoveredRun(free, frames)
    decreases |frames|
  {
    if frames != [] {
      forall bl | WellFormed(bl) && Pages(bl) == free ensures Covered(bl, frames[0], 1) {
        var i := PageInBlock(bl, low);
        if i < |bl| - 1 { Order(bl, i, |bl| - 1); }
      }
      LowPageCovers(free + {frames[0]}, frames[1..], low);
    }
  }

  /** With no page free, the second of two descending frames is below all free pages and not next to
      a lowest of several blocks, so giving it back is not covered. */
  lemma DescendingNotCovered(frames: seq<nat>)
    requires 1 < |frames| && frames[1] < frames[0] && frames[0] + 1 < PAGES
    ensures !CoveredRun({}, frames)
  {
    hide WellFormed, Pages;
    OneFree(frames[0]);
    assert !Covered([Block(frames[0], 1)], frames[1], 1);
    assert {} + {frames[0]} == {frames[0]} && frames[1..][0] == frames[1];
  }

  lemma OneFree(p: nat)
    requires p + 1 < PAGES
    ensures WellFormed([Block(p, 1)]) && Pages([Block(p, 1)]) == {p}
  {
    var bl := [Block(p, 1)];
    assert bl[1..] == [] && Pages([]) == {} && WellFormed([]);
    assert Range(p, 1) == {p};
  }

  lemma SomePage(bl: seq<Block>)
    requires WellFormed(bl)
    ensures bl != [] ==> bl[0].base in Pages(bl)
  {}

  lemma OneFrameCovers(frames: seq<nat>)
    requires |frames| <= 1
    ensures CoveredRun({}, frames)
  {
    if frames != [] {
      forall bl | WellFormed(bl) && Pages(bl) == {} ensures Covered(bl, frames[0], 1) {
        SomePage(bl);
      }
    }
  }
}
