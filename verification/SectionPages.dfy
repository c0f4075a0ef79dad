/** How the pages of a section cover it: `examples/probe_section_pages.rs` sorts them by
    where they start and keeps a high-water mark, the gaps below it and the bytes produced. */
module SectionPages {
  import opened Results
  import opened Sorting

  /** A page's place in the section and, unless it is missing or does not decompress, how many
      bytes it yields. */
  datatype Page = Page(start: nat, produced: Option<nat>) {
    predicate Holds(b: nat) {
      produced.Some? && start <= b < start + produced.value
    }

    function Size(): nat {
      if produced.Some? then produced.value else 0
    }
  }

  datatype Gap = Gap(start: nat, end: nat)

  // ---- sorting ----------------------------------------------------------------

  predicate ByStart(pages: seq<Page>) {
    forall i, j :: 0 <= i < j < |pages| ==> pages[i].start <= pages[j].start
  }

  predicate StartsNoLater(a: Page, b: Page) {
    a.start <= b.start
  }

  function SortPages(pages: seq<Page>): (r: seq<Page>)
    ensures ByStart(r) && multiset(r) == multiset(pages)
  {
    var r := Sort(pages, StartsNoLater);
    assert forall i, j :: 0 <= i < j < |r| ==> StartsNoLater(r[i], r[j]);
    r
  }

  // ---- what the pages hold ---------------------------------------------------------

  /** How many pages produce the byte. */
  function Layers(pages: seq<Page>, b: nat): nat {
    if pages == [] then 0
    else Layers(pages[..|pages| - 1], b) + if pages[|pages| - 1].Holds(b) then 1 else 0
  }

  function Produced(pages: seq<Page>): nat {
    if pages == [] then 0 else Produced(pages[..|pages| - 1]) + pages[|pages| - 1].Size()
  }

  lemma LayersSnoc(pages: seq<Page>, p: Page, b: nat)
    ensures Layers(pages + [p], b) == Layers(pages, b) + if p.Holds(b) then 1 else 0
    ensures Produced(pages + [p]) == Produced(pages) + p.Size()
  {
    assert (pages + [p])[..|pages|] == pages;
  }

  lemma {:induction false} LayersInsert(pages: seq<Page>, p: Page, b: nat)
    requires TotalPreorder(StartsNoLater) && Sorted(pages, StartsNoLater)
    ensures Layers(Insert(pages, p, StartsNoLater), b) == Layers(pages, b) + if p.Holds(b) then 1 else 0
    ensures Produced(Insert(pages, p, StartsNoLater)) == Produced(pages) + p.Size()
  {
    var n := |pages| - 1;
    if pages == [] || StartsNoLater(pages[n], p) {
      LayersSnoc(pages, p, b);
    } else {
      LayersInsert(pages[..n], p, b);
      LayersSnoc(Insert(pages[..n], p, StartsNoLater), pages[n], b);
    }
  }

  lemma {:induction false} LayersSort(pages: seq<Page>, b: nat)
    ensures Layers(SortPages(pages), b) == Layers(pages, b) && Produced(SortPages(pages)) == Produced(pages)
  {
    if pages != [] {
      var n := |pages| - 1;
      LayersSort(pages[..n], b);
      LayersInsert(SortPages(pages[..n]), pages[n], b);
    }
  }

  // ---- gaps ---------------------------------------------------------------------------

  predicate InGap(gaps: seq<Gap>, b: nat) {
    exists i :: 0 <= i < |gaps| && gaps[i].start <= b < gaps[i].end
  }

  /** The gaps ascend, none is empty and none meets another. */
  predicate Ascend(gaps: seq<Gap>, limit: nat) {
    && (forall i :: 0 <= i < |gaps| ==> gaps[i].start < gaps[i].end <= limit)
    && (forall i, j :: 0 <= i < j < |gaps| ==> gaps[i].end <= gaps[j].start)
  }

  function GapBytes(gaps: seq<Gap>): int {
    if gaps == [] then 0
    else GapBytes(gaps[..|gaps| - 1]) + (gaps[|gaps| - 1].end - gaps[|gaps| - 1].start)
  }

  /** The high-water mark is the greatest end of a page that produces, or 0 without one. */
  predicate IsHighWater(pages: seq<Page>, mark: nat) {
    && (forall i :: 0 <= i < |pages| && pages[i].produced.Some? ==> pages[i].start + pages[i].produced.value <= mark)
    && (mark == 0 || exists i :: 0 <= i < |pages| && pages[i].produced.Some? && mark == pages[i].start + pages[i].produced.value)
  }

  lemma HighWaterOfSame(a: seq<Page>, b: seq<Page>, mark: nat)
    requires multiset(a) == multiset(b) && IsHighWater(a, mark)
    ensures IsHighWater(b, mark)
  {
    forall i | 0 <= i < |b|
      ensures exists j :: 0 <= j < |a| && a[j] == b[i]
    {
      assert b[i] in multiset(a);
    }
    if mark != 0 {
      var i :| 0 <= i < |a| && a[i].produced.Some? && mark == a[i].start + a[i].produced.value;
      assert a[i] in multiset(b);
      var j :| 0 <= j < |b| && b[j] == a[i];
    }
  }

  lemma HighWaterMore(pages: seq<Page>, p: Page, mark: nat)
    requires IsHighWater(pages, mark)
    ensures var end := p.start + p.Size();
            IsHighWater(pages + [p], if p.produced.Some? && end > mark then end else mark)
  {
    var more := pages + [p];
    assert more[|pages|] == p;
    if mark != 0 {
      var i :| 0 <= i < |pages| && pages[i].produced.Some? && mark == pages[i].start + pages[i].produced.value;
      assert more[i] == pages[i];
    }
  }

  /** The gaps are exactly the bytes below the mark that no page produces. */
  ghost predicate Complement(pages: seq<Page>, gaps: seq<Gap>, mark: nat) {
    && (forall b: nat :: b < mark ==> (InGap(gaps, b) <==> Layers(pages, b) == 0))
    && (forall b: nat :: b >= mark ==> !InGap(gaps, b) && Layers(pages, b) == 0)
  }

  lemma InGapSnoc(gaps: seq<Gap>, g: Gap, b: nat)
    ensures InGap(gaps + [g], b) <==> InGap(gaps, b) || g.start <= b < g.end
  {
    var more := gaps + [g];
    assert more[|gaps|] == g;
    assert forall i :: 0 <= i < |gaps| ==> more[i] == gaps[i];
  }

  /** One page more: what the loop does with it keeps the gaps the complement of the pages. */
  lemma OnePageMore(before: seq<Page>, p: Page, gaps: seq<Gap>, mark: nat)
    requires Complement(before, gaps, mark) && Ascend(gaps, mark) && p.produced.Some?
    requires forall i :: 0 <= i < |gaps| ==> gaps[i].end <= p.start
    ensures var more := if p.start > mark then gaps + [Gap(mark, p.start)] else gaps;
            var end := p.start + p.produced.value;
            var next := if end > mark then end else mark;
            Complement(before + [p], more, next) && Ascend(more, next) && forall i :: 0 <= i < |more| ==> more[i].end <= p.start
  {
    var more := if p.start > mark then gaps + [Gap(mark, p.start)] else gaps;
    var end := p.start + p.produced.value;
    var next := if end > mark then end else mark;
    forall b: nat
      ensures b < next ==> (InGap(more, b) <==> Layers(before + [p], b) == 0)
      ensures b >= next ==> !InGap(more, b) && Layers(before + [p], b) == 0
    {
      hide Layers, Complement;
      LayersSnoc(before, p, b);
      InGapSnoc(gaps, Gap(mark, p.start), b);
      AtByte(before, gaps, mark, b);
    }
  }

  lemma AtByte(pages: seq<Page>, gaps: seq<Gap>, mark: nat, b: nat)
    requires Complement(pages, gaps, mark)
    ensures b < mark ==> (InGap(gaps, b) <==> Layers(pages, b) == 0)
    ensures b >= mark ==> !InGap(gaps, b) && Layers(pages, b) == 0
  {
  }

  // ---- the loop ------------------------------------------------------------------------------

  /** No byte is produced by two pages. */
  ghost predicate ProducedOnce(pages: seq<Page>) {
    forall b: nat :: Layers(pages, b) <= 1
  }

  /** Where the loop stands after the pages `before`, in order of their starts, the last of
      them at `last` or before. */
  ghost predicate Swept(before: seq<Page>, last: nat, mark: nat, gaps: seq<Gap>, total: nat) {
    && IsHighWater(before, mark) && Complement(before, gaps, mark) && Ascend(gaps, mark)
    && (forall i :: 0 <= i < |gaps| ==> gaps[i].end <= last)
    && total == Produced(before)
  }

  /** One turn over a page that does not start before the last. */
  lemma PageTurn(before: seq<Page>, last: nat, mark: nat, gaps: seq<Gap>, total: nat, p: Page)
    requires Swept(before, last, mark, gaps, total) && last <= p.start
    ensures p.produced.None? ==> Swept(before + [p], p.start, mark, gaps, total)
    ensures p.produced.Some? ==>
              var end := p.start + p.produced.value;
              Swept(before + [p], p.start, if end > mark then end else mark,
                    if p.start > mark then gaps + [Gap(mark, p.start)] else gaps, total + p.produced.value)
  {
    hide Layers, Complement, IsHighWater, Ascend, Produced;
    LayersSnoc(before, p, 0);
    HighWaterMore(before, p, mark);
    if p.produced.Some? {
      OnePageMore(before, p, gaps, mark);
    } else {
      ComplementKept(before, p, gaps, mark);
    }
  }

  /** The gap list and the high-water mark: gaps and pages together are the bytes below the
      mark and share none. The bytes produced are those the gaps leave, and equal to them
      exactly when no byte is produced twice. */
  method CoverSection(pages: seq<Page>) returns (mark: nat, gaps: seq<Gap>, total: nat)
    ensures IsHighWater(pages, mark)
    ensures Ascend(gaps, mark) && Complement(pages, gaps, mark)
    ensures total >= mark - GapBytes(gaps)
    ensures total == mark - GapBytes(gaps) <==> ProducedOnce(pages)
  {
    hide SortPages, Layers, Complement, IsHighWater, Ascend, InGap, GapBytes, Swept, Produced;
    var sorted := SortPages(pages);
    mark, gaps, total := 0, [], 0;
    ghost var last: nat := 0;
    NoPages();
    for n := 0 to |sorted|
      invariant Swept(sorted[..n], last, mark, gaps, total)
      invariant forall i :: n <= i < |sorted| ==> last <= sorted[i].start
    {
      var p := sorted[n];
      assert sorted[..n + 1] == sorted[..n] + [p];
      PageTurn(sorted[..n], last, mark, gaps, total, p);
      last := p.start;
      if p.produced.Some? {
        total := total + p.produced.value;
        if p.start > mark {
          gaps := gaps + [Gap(mark, p.start)];
        }
        var end := p.start + p.produced.value;
        if end > mark {
          mark := end;
        }
      }
    }
    assert sorted[..|sorted|] == sorted;
    SortedResult(pages, last, mark, gaps, total);
    BytesBalance(pages, gaps, mark);
  }

  lemma SortedResult(pages: seq<Page>, last: nat, mark: nat, gaps: seq<Gap>, total: nat)
    requires Swept(SortPages(pages), last, mark, gaps, total)
    ensures IsHighWater(pages, mark) && Complement(pages, gaps, mark) && Ascend(gaps, mark) && total == Produced(pages)
  {
    hide SortPages, Layers, Complement, IsHighWater, Ascend, Produced;
    HighWaterOfSame(SortPages(pages), pages, mark);
    LayersSort(pages, 0);
    forall b: nat
      ensures Layers(SortPages(pages), b) == Layers(pages, b)
    {
      LayersSort(pages, b);
    }
    ComplementOfSame(SortPages(pages), pages, gaps, mark);
  }

  lemma NoPages()
    ensures Swept([], 0, 0, [], 0)
  {
  }

  lemma ComplementKept(before: seq<Page>, p: Page, gaps: seq<Gap>, mark: nat)
    requires Complement(before, gaps, mark) && p.produced.None?
    ensures Complement(before + [p], gaps, mark)
  {
    forall b: nat
      ensures Layers(before + [p], b) == Layers(before, b)
    {
      LayersSnoc(before, p, b);
    }
  }

  lemma ComplementOfSame(a: seq<Page>, b: seq<Page>, gaps: seq<Gap>, mark: nat)
    requires Complement(a, gaps, mark) && forall k: nat :: Layers(a, k) == Layers(b, k)
    ensures Complement(b, gaps, mark)
  {
    hide Layers;
  }

  // ---- counting ---------------------------------------------------------------------------------

  /** The layers of the bytes below `limit`, and how many of those bytes have any. */
  function Sum(pages: seq<Page>, limit: nat): nat {
    if limit == 0 then 0 else Sum(pages, limit - 1) + Layers(pages, limit - 1)
  }

  function Held(pages: seq<Page>, limit: nat): nat {
    if limit == 0 then 0 else Held(pages, limit - 1) + if Layers(pages, limit - 1) > 0 then 1 else 0
  }

  function InGaps(gaps: seq<Gap>, limit: nat): nat {
    if limit == 0 then 0 else InGaps(gaps, limit - 1) + if InGap(gaps, limit - 1) then 1 else 0
  }

  /** The part of a page below `limit`. */
  function Below(p: Page, limit: nat): nat {
    if p.produced.None? || limit <= p.start then 0
    else if limit <= p.start + p.produced.value then limit - p.start
    else p.produced.value
  }

  lemma {:induction false} SumSnoc(pages: seq<Page>, p: Page, limit: nat)
    ensures Sum(pages + [p], limit) == Sum(pages, limit) + Below(p, limit)
  {
    hide Layers;
    if limit > 0 {
      SumSnoc(pages, p, limit - 1);
      LayersSnoc(pages, p, limit - 1);
    }
  }

  lemma {:induction false} SumIsProduced(pages: seq<Page>, limit: nat)
    requires forall i :: 0 <= i < |pages| && pages[i].produced.Some? ==> pages[i].start + pages[i].produced.value <= limit
    ensures Sum(pages, limit) == Produced(pages)
    decreases |pages|
  {
    hide Layers;
    if pages == [] {
      NothingSummed(limit);
    } else {
      var n := |pages| - 1;
      SumIsProduced(pages[..n], limit);
      SumSnoc(pages[..n], pages[n], limit);
      assert pages == pages[..n] + [pages[n]];
    }
  }

  lemma {:induction false} NothingSummed(limit: nat)
    ensures Sum([], limit) == 0
  {
    if limit > 0 {
      NothingSummed(limit - 1);
    }
  }

  /** No byte below the limit is produced twice. */
  predicate NoneTwice(pages: seq<Page>, limit: nat) {
    forall b: nat :: b < limit ==> Layers(pages, b) <= 1
  }

  lemma NoneTwiceStep(pages: seq<Page>, limit: nat)
    requires limit > 0
    ensures NoneTwice(pages, limit) <==> NoneTwice(pages, limit - 1) && Layers(pages, limit - 1) <= 1
  {
    if NoneTwice(pages, limit - 1) && Layers(pages, limit - 1) <= 1 {
      forall b: nat | b < limit
        ensures Layers(pages, b) <= 1
      {
        assert b < limit - 1 || b == limit - 1;
      }
    }
  }

  /** Summing layers counts every held byte, and counts none twice exactly when no byte below
      the limit has two. */
  lemma {:induction false} SumAndHeld(pages: seq<Page>, limit: nat)
    ensures Sum(pages, limit) >= Held(pages, limit)
    ensures Sum(pages, limit) == Held(pages, limit) <==> NoneTwice(pages, limit)
  {
    hide Layers;
    if limit > 0 {
      SumAndHeld(pages, limit - 1);
      NoneTwiceStep(pages, limit);
      hide NoneTwice;
    }
  }

  lemma {:induction false} HeldAndGaps(pages: seq<Page>, gaps: seq<Gap>, mark: nat, limit: nat)
    requires Complement(pages, gaps, mark) && limit <= mark
    ensures Held(pages, limit) + InGaps(gaps, limit) == limit
    decreases limit
  {
    hide Layers, InGap;
    if limit > 0 {
      HeldAndGaps(pages, gaps, mark, limit - 1);
    }
  }

  lemma {:induction false} InGapsSnoc(gaps: seq<Gap>, g: Gap, limit: nat)
    requires g.start < g.end && forall i :: 0 <= i < |gaps| ==> gaps[i].end <= g.start
    ensures InGaps(gaps + [g], limit) == InGaps(gaps, limit)
                                         + (if limit <= g.start then 0 else if limit <= g.end then limit - g.start else g.end - g.start)
    decreases limit
  {
    if limit > 0 {
      InGapsSnoc(gaps, g, limit - 1);
      InGapSnoc(gaps, g, limit - 1);
    }
  }

  lemma AscendFront(gaps: seq<Gap>, limit: nat)
    requires Ascend(gaps, limit) && gaps != []
    ensures var n := |gaps| - 1;
            && Ascend(gaps[..n], limit) && gaps[n].start < gaps[n].end <= limit
            && forall i :: 0 <= i < n ==> gaps[..n][i].end <= gaps[n].start
  {
  }

  lemma {:induction false} GapBytesCounted(gaps: seq<Gap>, mark: nat)
    requires Ascend(gaps, mark)
    ensures InGaps(gaps, mark) == GapBytes(gaps)
    decreases |gaps|
  {
    if gaps == [] {
      NoGaps(mark);
    } else {
      hide InGaps;
      var n := |gaps| - 1;
      AscendFront(gaps, mark);
      hide Ascend;
      GapBytesCounted(gaps[..n], mark);
      InGapsSnoc(gaps[..n], gaps[n], mark);
      assert gaps == gaps[..n] + [gaps[n]];
    }
  }

  lemma {:induction false} NoGaps(limit: nat)
    ensures InGaps([], limit) == 0
  {
    if limit > 0 {
      NoGaps(limit - 1);
    }
  }

  lemma BytesBalance(pages: seq<Page>, gaps: seq<Gap>, mark: nat)
    requires IsHighWater(pages, mark) && Complement(pages, gaps, mark) && Ascend(gaps, mark)
    ensures Produced(pages) >= mark - GapBytes(gaps)
    ensures Produced(pages) == mark - GapBytes(gaps) <==> ProducedOnce(pages)
  {
    hide Layers, NoneTwice;
    SumIsProduced(pages, mark);
    SumAndHeld(pages, mark);
    HeldAndGaps(pages, gaps, mark, mark);
    GapBytesCounted(gaps, mark);
    NoneTwiceAtAll(pages, gaps, mark);
  }

  lemma NoneTwiceAtAll(pages: seq<Page>, gaps: seq<Gap>, mark: nat)
    requires Complement(pages, gaps, mark)
    ensures NoneTwice(pages, mark) <==> ProducedOnce(pages)
  {
    hide Layers, InGap;
    if NoneTwice(pages, mark) {
      forall b: nat
        ensures Layers(pages, b) <= 1
      {
        AtByte(pages, gaps, mark, b);
      }
      assert ProducedOnce(pages);
    }
  }
}
