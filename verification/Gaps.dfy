/** Sorted, disjoint spans of addresses and the gaps between them: what first fit looks for. */
module Gaps {
  datatype Span = Span(lo: nat, hi: nat)

  /** Ascending, nonempty, pairwise disjoint and inside [start, end]. */
  ghost predicate Sorted(sp: seq<Span>, start: nat, end: nat) {
    && (forall i | 0 <= i < |sp| :: start <= sp[i].lo < sp[i].hi <= end)
    && (forall i, j | 0 <= i < j < |sp| :: sp[i].hi <= sp[j].lo)
  }

  lemma SpansApart(sp: seq<Span>, start: nat, end: nat, i: nat, j: nat)
    requires Sorted(sp, start, end) && i < |sp| && j < |sp|
    ensures i == j || sp[i].hi <= sp[j].lo || sp[j].hi <= sp[i].lo
  {}

  /** `len` addresses from `a` lie inside [start, end] and clear of every span. */
  ghost predicate FitsAt(sp: seq<Span>, start: nat, end: nat, a: nat, len: nat) {
    start <= a && a + len <= end && forall i | 0 <= i < |sp| :: a + len <= sp[i].lo || sp[i].hi <= a
  }

  ghost predicate Fits(sp: seq<Span>, start: nat, end: nat, len: nat) {
    exists a :: FitsAt(sp, start, end, a, len)
  }

  /** `a` is the lowest address at which `len` addresses fit. */
  ghost predicate LowestFit(sp: seq<Span>, start: nat, end: nat, a: nat, len: nat) {
    FitsAt(sp, start, end, a, len) && forall b: nat | FitsAt(sp, start, end, b, len) :: a <= b
  }

  /** The front gap and the gaps after the spans before `i` are all too small. */
  ghost predicate NoGapBefore(sp: seq<Span>, start: nat, len: nat, i: nat) {
    i < |sp| && sp[0].lo < start + len && forall j | 0 <= j < i :: sp[j + 1].lo < sp[j].hi + len
  }

  lemma {:induction false} FitsOnlyAbove(sp: seq<Span>, start: nat, end: nat, len: nat, i: nat, a: nat)
    requires Sorted(sp, start, end) && NoGapBefore(sp, start, len, i) && FitsAt(sp, start, end, a, len)
    ensures sp[i].hi <= a
  {
    if i > 0 {
      FitsOnlyAbove(sp, start, end, len, i - 1, a);
      var j := i - 1;
      assert sp[j + 1].lo < sp[j].hi + len;
    }
  }

  lemma FrontIsLowest(sp: seq<Span>, start: nat, end: nat, len: nat)
    requires Sorted(sp, start, end) && sp != [] && start + len <= sp[0].lo
    ensures LowestFit(sp, start, end, start, len)
  {
    assert forall i | 0 <= i < |sp| :: sp[0].lo <= sp[i].lo;
  }

  /** The first gap found from the left is the lowest place. */
  lemma FirstGapIsLowest(sp: seq<Span>, start: nat, end: nat, len: nat, i: nat)
    requires Sorted(sp, start, end) && NoGapBefore(sp, start, len, i)
    requires if i + 1 < |sp| then sp[i].hi + len <= sp[i + 1].lo else sp[i].hi + len <= end
    ensures LowestFit(sp, start, end, sp[i].hi, len)
  {
    forall b: nat | FitsAt(sp, start, end, b, len) ensures sp[i].hi <= b {
      FitsOnlyAbove(sp, start, end, len, i, b);
    }
    assert i + 1 < |sp| ==> sp[i + 1].lo <= end;
    forall j | 0 <= j < |sp| ensures sp[i].hi + len <= sp[j].lo || sp[j].hi <= sp[i].hi {
      if i + 1 < j { assert sp[i + 1].hi <= sp[j].lo; }
      if j < i { assert sp[j].hi <= sp[i].lo; }
    }
  }

  /** Nothing fits once a span with no gap before it ends too close to the end of the space. */
  lemma NoRoomAbove(sp: seq<Span>, start: nat, end: nat, len: nat, i: nat)
    requires Sorted(sp, start, end) && NoGapBefore(sp, start, len, i) && end < sp[i].hi + len
    ensures !Fits(sp, start, end, len)
  {
    forall a: nat | FitsAt(sp, start, end, a, len) ensures false {
      FitsOnlyAbove(sp, start, end, len, i, a);
    }
  }

  /** The lowest fit starts where the space starts or where a span ends. */
  lemma LowestFitAtEdge(sp: seq<Span>, start: nat, end: nat, a: nat, len: nat)
    requires LowestFit(sp, start, end, a, len)
    ensures a == start || exists i :: 0 <= i < |sp| && sp[i].hi == a
  {
    if a != start {
      assert !FitsAt(sp, start, end, a - 1, len);
    }
  }

  ghost function Inserted(sp: seq<Span>, k: nat, s: Span): seq<Span>
    requires k <= |sp|
  {
    sp[..k] + [s] + sp[k..]
  }

  lemma InsertKeepsSorted(sp: seq<Span>, start: nat, end: nat, k: nat, s: Span)
    requires Sorted(sp, start, end) && k <= |sp| && start <= s.lo < s.hi <= end
    requires k > 0 ==> sp[k - 1].hi <= s.lo
    requires k < |sp| ==> s.hi <= sp[k].lo
    ensures Sorted(Inserted(sp, k, s), start, end)
  {
    var r := Inserted(sp, k, s);
    forall i, j | 0 <= i < j < |r| ensures r[i].hi <= r[j].lo {
      if i < k - 1 && j == k { assert sp[i].hi <= sp[k - 1].lo; }
      if i == k && k + 1 < j { assert sp[k].hi <= sp[j - 1].lo; }
    }
  }

  lemma RemoveKeepsSorted(sp: seq<Span>, start: nat, end: nat, k: nat)
    requires Sorted(sp, start, end) && k < |sp|
    ensures Sorted(sp[..k] + sp[k + 1..], start, end)
  {}
}
