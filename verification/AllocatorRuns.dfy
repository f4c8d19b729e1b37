/** Runs of the page allocator on its abstract list: what a sequence of requests can and cannot
    change, whatever the order (kernel/memory_manager.c). */
module AllocatorRuns {
  import opened Words
  import opened FreeList
  import opened Threads
  import opened PhysMem

  datatype Request = Take(count: nat) | Give(base: nat, count: nat)

  /** -1 for a refusal, the first page for a run handed out, 0 for a range taken back. */
  type Answer = int

  const REFUSED: Answer := -1

  /** What the contracts of `AllocPhysPages` and `FreePhysPages` say about one call. */
  ghost predicate Step(bl: seq<Block>, request: Request, answer: Answer, bl': seq<Block>) {
    && WellFormed(bl')
    && match request
       case Take(count) =>
         0 < count
         && (if answer == REFUSED then NoRun(Pages(bl), count) && Pages(bl') == Pages(bl)
             else 0 <= answer && HighestRun(Pages(bl), answer, count) && Pages(bl') == Pages(bl) - Range(answer, count))
       case Give(base, count) =>
         && answer == 0 && Freeable(bl, base, count) && Covered(bl, base, count)
         && Pages(bl') == Pages(bl) + Range(base, count)
  }

  ghost predicate IsRun(lists: seq<seq<Block>>, requests: seq<Request>, answers: seq<Answer>) {
    && |lists| == |requests| + 1 && |answers| == |requests|
    && WellFormed(lists[0])
    && forall i | 0 <= i < |requests| :: Step(lists[i], requests[i], answers[i], lists[i + 1])
  }

  /** Pages handed out minus pages taken back. */
  ghost function Outstanding(requests: seq<Request>, answers: seq<Answer>): int
    requires |requests| == |answers|
  {
    if requests == [] then 0
    else
      var n := |requests| - 1;
      Outstanding(requests[..n], answers[..n]) + HandedOut(requests[n], answers[n])
  }

  ghost function HandedOut(request: Request, answer: Answer): int {
    match request
    case Take(count) => if answer == REFUSED then 0 else count
    case Give(_, count) => 0 - count
  }

  /** One request served by the allocator in memory is one step of the abstract list. */
  method Serve(m: PhysMemory, request: Request) returns (answer: Answer)
    requires m.Valid()
    requires request.Take? ==> 0 < request.count < WORD_LIMIT
    requires request.Give? ==>
               Freeable(m.blocks, request.base, request.count) && Covered(m.blocks, request.base, request.count)
    modifies m, m.ram
    ensures m.Valid() && Step(old(m.blocks), request, answer, m.blocks)
  {
    hide WellFormed, Pages, Sum, Range, Covered, HighestRun, NoRun;
    match request
    case Take(count) =>
      var paddr := m.AllocPhysPages(count);
      answer := if paddr == NONE then REFUSED else paddr / PAGE_SIZE;
    case Give(base, count) =>
      m.FreePhysPages(Addr(base), count);
      answer := 0;
  }

  lemma StepCounts(bl: seq<Block>, request: Request, answer: Answer, bl': seq<Block>)
    requires WellFormed(bl) && Step(bl, request, answer, bl')
    ensures Sum(bl') == Sum(bl) - HandedOut(request, answer)
  {
    hide WellFormed, Sum, HighestRun, NoRun, Covered;
    SumIsCardinality(bl);
    SumIsCardinality(bl');
    match request
    case Take(count) =>
      if answer != REFUSED {
        RangeSize(answer, count);
        HighestIsFree(Pages(bl), answer, count);
        assert |Pages(bl)| == |Pages(bl')| + |Range(answer, count)| by {
          assert Pages(bl) == Pages(bl') + Range(answer, count);
        }
      }
    case Give(base, count) =>
      RangeSize(base, count);
  }

  lemma HighestIsFree(free: set<nat>, p: nat, count: nat)
    requires HighestRun(free, p, count)
    ensures Range(p, count) <= free
  {}

  /** Conservation: over every run the free pages and the pages handed out add up to the same. */
  lemma {:induction false} RunConserves(lists: seq<seq<Block>>, requests: seq<Request>, answers: seq<Answer>)
    requires IsRun(lists, requests, answers)
    ensures Sum(lists[|requests|]) + Outstanding(requests, answers) == Sum(lists[0])
    ensures WellFormed(lists[|requests|])
    decreases |requests|
  {
    if requests != [] {
      var n := |requests| - 1;
      RunConserves(lists[..n + 1], requests[..n], answers[..n]);
      assert Step(lists[n], requests[n], answers[n], lists[n + 1]);
      StepCounts(lists[n], requests[n], answers[n], lists[n + 1]);
    }
  }

  lemma StepDeterministic(
    bl: seq<Block>, request: Request, answer1: Answer, bl1: seq<Block>, answer2: Answer, bl2: seq<Block>)
    requires Step(bl, request, answer1, bl1) && Step(bl, request, answer2, bl2)
    ensures answer1 == answer2 && bl1 == bl2
  {
    hide WellFormed, Pages, Covered, Freeable, Range;
    Canonicalise(bl1, bl2);
  }

  lemma Canonicalise(a: seq<Block>, b: seq<Block>)
    requires WellFormed(a) && WellFormed(b)
    ensures Pages(a) == Pages(b) ==> a == b
  {
    if Pages(a) == Pages(b) { Canonical(a, b); }
  }

  /** The requests decide everything: two runs from the same list give the same answers and go
      through the same lists, block for block. */
  lemma {:induction false} RunsAgree(lists1: seq<seq<Block>>, lists2: seq<seq<Block>>, requests: seq<Request>,
                                     answers1: seq<Answer>, answers2: seq<Answer>)
    requires IsRun(lists1, requests, answers1) && IsRun(lists2, requests, answers2) && lists1[0] == lists2[0]
    ensures answers1 == answers2 && lists1 == lists2
    decreases |requests|
  {
    if requests == [] {
      assert lists1 == [lists1[0]] && lists2 == [lists2[0]];
    } else {
      var n := |requests| - 1;
      RunsAgree(lists1[..n + 1], lists2[..n + 1], requests[..n], answers1[..n], answers2[..n]);
      assert lists1[..n + 1][n] == lists2[..n + 1][n];
      assert Step(lists1[n], requests[n], answers1[n], lists1[n + 1]);
      assert Step(lists2[n], requests[n], answers2[n], lists2[n + 1]);
      StepDeterministic(lists1[n], requests[n], answers1[n], lists1[n + 1], answers2[n], lists2[n + 1]);
      assert answers1 == answers1[..n] + [answers1[n]] && answers2 == answers2[..n] + [answers2[n]];
      assert lists1 == lists1[..n + 1] + [lists1[n + 1]] && lists2 == lists2[..n + 1] + [lists2[n + 1]];
    }
  }

  // ----- giving back what was just taken

  /** The run handed out ends where the block it comes from ends. */
  lemma RunEndsBlock(bl: seq<Block>, p: nat, count: nat) returns (i: nat)
    requires WellFormed(bl) && 0 < count && HighestRun(Pages(bl), p, count)
    ensures i < |bl| && bl[i].base <= p && p + count == bl[i].End()
  {
    hide WellFormed, Pages;
    i := RunInOneBlock(bl, p, count);
    BlockOk(bl, i);
    var q := bl[i].End() - count;
    assert Range(q, count) <= Range(bl[i].base, bl[i].size);
  }

  /** Freeing the run just allocated is one of the handled cases, and then restores the very same
      list, unless the run was the whole of the lowest of several blocks. */
  lemma FreeingRestores(bl: seq<Block>, p: nat, count: nat, bl': seq<Block>)
    requires WellFormed(bl) && Step(bl, Take(count), p, bl')
    ensures Freeable(bl', p, count)
    ensures Covered(bl', p, count) <==> !(|bl| > 1 && bl[|bl| - 1] == Block(p, count))
    ensures forall bl'' | Step(bl', Give(p, count), 0, bl'') :: bl'' == bl
  {
    hide WellFormed, Pages, Sum;
    var i := RunEndsBlock(bl, p, count);
    var last := |bl| - 1;
    BlockOk(bl, i);
    if i < last { Order(bl, i, last); }
    HighestIsFree(Pages(bl), p, count);
    if bl[i].base == p {
      TakeWhole(bl, i);
      Canonical(bl', bl[..i] + bl[i + 1..]);
      if |bl| > 1 && i == last { Order(bl, i - 1, i); }
    } else {
      Carve(bl, i, bl[i].size - count);
      Canonical(bl', bl[i := Block(bl[i].base, bl[i].size - count)]);
    }
    forall bl'' | Step(bl', Give(p, count), 0, bl'') ensures bl'' == bl {
      Canonicalise(bl'', bl);
    }
  }
}
