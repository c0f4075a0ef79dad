/** The coverage sweeps of `examples/probe_class_census.rs` and
    `examples/probe_reference_closure.rs`: record spans are sorted and one pass counts the
    bytes of the stream that no record claims. */
module Coverage {
  import opened Sorting

  /** The bytes `start` up to but not including `end`. A record always has some. */
  datatype Span = Span(start: nat, end: nat) {
    predicate Real() {
      start < end
    }
  }

  // ---- sorting -----------------------------------------------------------

  /** By start, and then by end. */
  predicate LessEq(a: Span, b: Span) {
    a.start < b.start || (a.start == b.start && a.end <= b.end)
  }

  function SortSpans(spans: seq<Span>): (r: seq<Span>)
    ensures Sorted(r, LessEq) && multiset(r) == multiset(spans)
  {
    Sort(spans, LessEq)
  }

  // ---- what coverage means ------------------------------------------------

  predicate AllReal(spans: seq<Span>) {
    forall i :: 0 <= i < |spans| ==> spans[i].Real()
  }

  predicate Covered(spans: seq<Span>, b: int) {
    exists i :: 0 <= i < |spans| && spans[i].start <= b < spans[i].end
  }

  /** How many bytes from `lo` below `hi` no span holds. */
  function Uncovered(spans: seq<Span>, lo: nat, hi: nat): nat
    decreases hi
  {
    if hi <= lo then 0 else Uncovered(spans, lo, hi - 1) + if Covered(spans, hi - 1) then 0 else 1
  }

  /** How many uncovered runs begin from `lo` below `hi`. */
  function RunStarts(spans: seq<Span>, lo: nat, hi: nat): nat
    decreases hi
  {
    if hi <= lo then 0
    else RunStarts(spans, lo, hi - 1) + if !Covered(spans, hi - 1) && Covered(spans, hi - 2) then 1 else 0
  }

  predicate Free(spans: seq<Span>, lo: nat, hi: nat) {
    forall b :: lo <= b < hi ==> !Covered(spans, b)
  }

  /** `n` is the length of the longest uncovered run below `limit`. */
  ghost predicate IsLongestRun(spans: seq<Span>, limit: nat, n: nat) {
    && (exists a: nat, b: nat :: a + n == b <= limit && Free(spans, a, b))
    && (forall a: nat, b: nat :: a <= b <= limit && Free(spans, a, b) ==> b - a <= n)
  }

  /** The end of the last span, wherever it is in the list. */
  function MaxEnd(spans: seq<Span>): (end: nat)
    ensures forall i :: 0 <= i < |spans| ==> spans[i].end <= end
    ensures spans != [] ==> exists i :: 0 <= i < |spans| && spans[i].end == end
  {
    if spans == [] then 0
    else
      var n := |spans| - 1;
      var before := MaxEnd(spans[..n]);
      assert forall i :: 0 <= i < n ==> spans[i] == spans[..n][i];
      if before > spans[n].end then before else spans[n].end
  }

  // ---- counting lemmas -----------------------------------------------------

  lemma {:induction false} UncoveredSplit(spans: seq<Span>, lo: nat, mid: nat, hi: nat)
    requires lo <= mid <= hi
    ensures Uncovered(spans, lo, hi) == Uncovered(spans, lo, mid) + Uncovered(spans, mid, hi)
    decreases hi
  {
    if mid < hi {
      UncoveredSplit(spans, lo, mid, hi - 1);
    }
  }

  lemma {:induction false} RunStartsSplit(spans: seq<Span>, lo: nat, mid: nat, hi: nat)
    requires lo <= mid <= hi
    ensures RunStarts(spans, lo, hi) == RunStarts(spans, lo, mid) + RunStarts(spans, mid, hi)
    decreases hi
  {
    if mid < hi {
      RunStartsSplit(spans, lo, mid, hi - 1);
    }
  }

  /** Two lists that cover the same bytes below `hi` leave the same ones out. */
  lemma {:induction false} SameCoverage(p: seq<Span>, q: seq<Span>, lo: nat, hi: nat)
    requires forall b :: -1 <= b < hi ==> (Covered(p, b) <==> Covered(q, b))
    ensures Uncovered(p, lo, hi) == Uncovered(q, lo, hi) && RunStarts(p, lo, hi) == RunStarts(q, lo, hi)
    decreases hi
  {
    if lo < hi {
      SameCoverage(p, q, lo, hi - 1);
      assert Covered(p, hi - 1) <==> Covered(q, hi - 1);
      assert Covered(p, hi - 2) <==> Covered(q, hi - 2);
    }
  }

  lemma {:induction false} AllUncovered(spans: seq<Span>, lo: nat, hi: nat)
    requires lo <= hi && Free(spans, lo, hi)
    ensures Uncovered(spans, lo, hi) == hi - lo
    ensures RunStarts(spans, lo, hi) == if lo < hi && Covered(spans, lo - 1) then 1 else 0
    decreases hi
  {
    if lo < hi {
      AllUncovered(spans, lo, hi - 1);
      assert !Covered(spans, hi - 1);
    }
  }

  lemma {:induction false} AllCovered(spans: seq<Span>, lo: nat, hi: nat)
    requires forall b :: lo <= b < hi ==> Covered(spans, b)
    ensures Uncovered(spans, lo, hi) == 0 && RunStarts(spans, lo, hi) == 0
    decreases hi
  {
    if lo < hi {
      AllCovered(spans, lo, hi - 1);
      assert Covered(spans, hi - 1);
    }
  }

  lemma CoveredByMore(spans: seq<Span>, s: Span, b: int)
    ensures Covered(spans + [s], b) <==> Covered(spans, b) || s.start <= b < s.end
  {
    var more := spans + [s];
    if Covered(spans, b) {
      var i :| 0 <= i < |spans| && spans[i].start <= b < spans[i].end;
      assert more[i] == spans[i];
    }
    if s.start <= b < s.end {
      assert more[|spans|] == s;
    }
  }

  lemma MaxEndMore(spans: seq<Span>, s: Span)
    ensures MaxEnd(spans + [s]) == if MaxEnd(spans) > s.end then MaxEnd(spans) else s.end
  {
    assert (spans + [s])[..|spans|] == spans;
  }

  /** Where every start is at most `s.start`, a byte the spans leave out below their last
      end comes before `s`: the sweep never reopens a gap it has counted. */
  lemma GapsAreSettled(spans: seq<Span>, s: Span, b: int)
    requires forall i :: 0 <= i < |spans| ==> spans[i].start <= s.start
    requires 0 <= b < MaxEnd(spans) && !Covered(spans, b)
    ensures b < s.start
  {
    var i :| 0 <= i < |spans| && spans[i].end == MaxEnd(spans);
    assert b < spans[i].start;
  }

  lemma NothingPastTheEnd(spans: seq<Span>, b: int)
    requires b >= MaxEnd(spans)
    ensures !Covered(spans, b)
  {
  }

  lemma LastByteIsCovered(spans: seq<Span>)
    requires AllReal(spans) && spans != []
    ensures Covered(spans, MaxEnd(spans) - 1)
  {
    var i :| 0 <= i < |spans| && spans[i].end == MaxEnd(spans);
    assert spans[i].Real();
  }

  predicate StartsBefore(spans: seq<Span>, start: nat) {
    forall i :: 0 <= i < |spans| ==> spans[i].start <= start
  }

  /** One turn of the sweep: the gap before `s`, if any, is all that is newly left out. */
  lemma SweepTurn(spans: seq<Span>, s: Span)
    requires AllReal(spans) && s.Real()
    requires StartsBefore(spans, s.start)
    ensures var end, more := MaxEnd(spans), spans + [s];
            var gap := if s.start > end then s.start - end else 0;
            && Uncovered(more, 0, MaxEnd(more)) == Uncovered(spans, 0, end) + gap
            && RunStarts(more, 0, MaxEnd(more)) == RunStarts(spans, 0, end) + (if spans != [] && gap > 0 then 1 else 0)
            && (forall b :: -1 <= b < end ==> (Covered(more, b) <==> Covered(spans, b)))
            && Free(more, end, end + gap)
            && (forall b :: end + gap <= b < MaxEnd(more) ==> Covered(more, b))
  {
    var end, more := MaxEnd(spans), spans + [s];
    var gap := if s.start > end then s.start - end else 0;
    MaxEndMore(spans, s);
    forall b
      ensures Covered(more, b) <==> Covered(spans, b) || s.start <= b < s.end
    {
      CoveredByMore(spans, s, b);
    }
    forall b | -1 <= b < end
      ensures Covered(more, b) <==> Covered(spans, b)
    {
      if 0 <= b && !Covered(spans, b) {
        GapsAreSettled(spans, s, b);
      }
    }
    SameCoverage(more, spans, 0, end);
    forall b | end <= b < end + gap
      ensures !Covered(more, b)
    {
      NothingPastTheEnd(spans, b);
    }
    assert Free(more, end, end + gap);
    SettleCounts(more, end, end + gap, MaxEnd(more));
    if spans != [] {
      LastByteIsCovered(spans);
      assert Covered(more, end - 1);
    } else {
      assert !Covered(more, -1);
    }
  }

  lemma SettleCounts(spans: seq<Span>, end: nat, mid: nat, limit: nat)
    requires end <= mid <= limit && Free(spans, end, mid)
    requires forall b :: mid <= b < limit ==> Covered(spans, b)
    ensures Uncovered(spans, 0, limit) == Uncovered(spans, 0, end) + (mid - end)
    ensures RunStarts(spans, 0, limit) == RunStarts(spans, 0, end) + if end < mid && Covered(spans, end - 1) then 1 else 0
  {
    UncoveredSplit(spans, 0, end, limit);
    UncoveredSplit(spans, end, mid, limit);
    RunStartsSplit(spans, 0, end, limit);
    RunStartsSplit(spans, end, mid, limit);
    AllUncovered(spans, end, mid);
    AllCovered(spans, mid, limit);
  }

  // ---- the sweeps ----------------------------------------------------------

  lemma SortedPrefix(spans: seq<Span>, i: nat)
    requires Sorted(spans, LessEq) && i < |spans|
    ensures StartsBefore(spans[..i], spans[i].start) && spans[..i + 1] == spans[..i] + [spans[i]]
  {
  }

  lemma AllRealPrefix(spans: seq<Span>, i: nat)
    requires AllReal(spans) && i <= |spans|
    ensures AllReal(spans[..i])
  {
  }

  /** Sorting changes neither what is covered nor where the last span ends. */
  lemma SortingKeeps(spans: seq<Span>)
    ensures |SortSpans(spans)| == |spans| && MaxEnd(SortSpans(spans)) == MaxEnd(spans)
    ensures AllReal(spans) ==> AllReal(SortSpans(spans))
    ensures forall b :: Covered(SortSpans(spans), b) <==> Covered(spans, b)
  {
    var sorted := SortSpans(spans);
    assert |sorted| == |multiset(sorted)| == |spans|;
    SameMembers(sorted, spans);
    SameMembers(spans, sorted);
  }

  lemma SameMembers(p: seq<Span>, q: seq<Span>)
    requires multiset(p) == multiset(q)
    ensures MaxEnd(p) <= MaxEnd(q)
    ensures AllReal(q) ==> AllReal(p)
    ensures forall b :: Covered(p, b) ==> Covered(q, b)
  {
    forall i | 0 <= i < |p|
      ensures exists j :: 0 <= j < |q| && q[j] == p[i]
    {
      assert p[i] in multiset(p);
      assert p[i] in q;
    }
    forall b | Covered(p, b)
      ensures Covered(q, b)
    {
      var i :| 0 <= i < |p| && p[i].start <= b < p[i].end;
      var j :| 0 <= j < |q| && q[j] == p[i];
      assert q[j].start <= b < q[j].end;
    }
  }

  function Max(a: nat, b: nat): nat {
    if a > b then a else b
  }

  function Beyond(a: nat, b: nat): nat {
    if a > b then a - b else 0
  }

  lemma LongestRunTurn(spans: seq<Span>, s: Span, n: nat)
    requires AllReal(spans) && s.Real() && StartsBefore(spans, s.start)
    requires IsLongestRun(spans, MaxEnd(spans), n)
    ensures IsLongestRun(spans + [s], MaxEnd(spans + [s]), Max(n, Beyond(s.start, MaxEnd(spans))))
  {
    SweepTurn(spans, s);
    var end, more := MaxEnd(spans), spans + [s];
    MaxEndMore(spans, s);
    if spans != [] {
      LastByteIsCovered(spans);
    }
    LongestRunGrows(spans, more, end, end + Beyond(s.start, end), MaxEnd(more), n);
  }

  /** Below `end` nothing changed, from `end` to `mid` nothing is covered, from there to
      `limit` everything is. */
  lemma LongestRunGrows(spans: seq<Span>, more: seq<Span>, end: nat, mid: nat, limit: nat, n: nat)
    requires end <= mid <= limit && IsLongestRun(spans, end, n)
    requires forall b :: -1 <= b < end ==> (Covered(more, b) <==> Covered(spans, b))
    requires end > 0 ==> Covered(spans, end - 1)
    requires Free(more, end, mid) && forall b :: mid <= b < limit ==> Covered(more, b)
    ensures IsLongestRun(more, limit, Max(n, mid - end))
  {
    var longest := Max(n, mid - end);
    if n >= mid - end {
      var a: nat, b: nat :| a + n == b <= end && Free(spans, a, b);
      assert Free(more, a, b);
    } else {
      assert Free(more, end, mid) && end + longest == mid;
    }
    forall a: nat, b: nat | a <= b <= limit && Free(more, a, b)
      ensures b - a <= longest
    {
      if b <= end {
        assert Free(spans, a, b);
      } else {
        assert end > 0 && a <= end - 1 ==> Covered(more, end - 1);
        assert mid < b && a <= mid ==> Covered(more, mid);
        assert mid < b && mid < a ==> a == b || Covered(more, a);
      }
    }
  }

  lemma NothingSwept()
    ensures MaxEnd([]) == 0 && Uncovered([], 0, 0) == 0 && RunStarts([], 0, 0) == 0 && IsLongestRun([], 0, 0)
  {
    assert Free([], 0, 0);
  }

  lemma CensusTurn(sorted: seq<Span>, i: nat, n: nat)
    requires AllReal(sorted) && Sorted(sorted, LessEq) && i < |sorted|
    requires IsLongestRun(sorted[..i], MaxEnd(sorted[..i]), n)
    ensures var before, now := sorted[..i], sorted[..i + 1];
            var gap := Beyond(sorted[i].start, MaxEnd(before));
            && MaxEnd(now) == Max(MaxEnd(before), sorted[i].end)
            && Uncovered(now, 0, MaxEnd(now)) == Uncovered(before, 0, MaxEnd(before)) + gap
            && IsLongestRun(now, MaxEnd(now), Max(n, gap))
  {
    hide Covered, Uncovered, IsLongestRun, MaxEnd, Free, Sorted, StartsBefore, RunStarts;
    var before, s := sorted[..i], sorted[i];
    SortedPrefix(sorted, i);
    AllRealPrefix(sorted, i);
    assert s.Real() by {
      assert sorted[i].Real();
    }
    hide AllReal;
    SweepTurn(before, s);
    LongestRunTurn(before, s, n);
    MaxEndMore(before, s);
  }

  /** The lengths of the spans in all, shared bytes counted once for each. */
  function TotalLength(spans: seq<Span>): int {
    if spans == [] then 0
    else TotalLength(spans[..|spans| - 1]) + (spans[|spans| - 1].end - spans[|spans| - 1].start)
  }

  /** Each span counts its own length, and no spans count nothing. */
  lemma {:induction false} LengthsAdd(a: seq<Span>, b: seq<Span>)
    ensures TotalLength(a + b) == TotalLength(a) + TotalLength(b)
    ensures forall s: Span :: TotalLength([s]) == s.end - s.start
    ensures TotalLength([]) == 0
  {
    forall s: Span
      ensures TotalLength([s]) == s.end - s.start
    {
      assert [s][..0] == [];
    }
    if b == [] {
      assert a + b == a;
    } else {
      LengthsAdd(a, b[..|b| - 1]);
      assert (a + b)[..|a + b| - 1] == a + b[..|b| - 1];
    }
  }

  lemma RealAt(spans: seq<Span>, i: nat)
    requires AllReal(spans) && i < |spans|
    ensures spans[i].Real()
  {
  }

  lemma LengthSnoc(spans: seq<Span>, s: Span)
    ensures TotalLength(spans + [s]) == TotalLength(spans) + (s.end - s.start)
  {
    assert (spans + [s])[..|spans|] == spans;
  }

  lemma {:induction false} LengthOfInsert(spans: seq<Span>, s: Span)
    requires TotalPreorder(LessEq) && Sorted(spans, LessEq)
    ensures TotalLength(Insert(spans, s, LessEq)) == TotalLength(spans) + (s.end - s.start)
  {
    var n := |spans| - 1;
    if spans == [] || LessEq(spans[n], s) {
      LengthSnoc(spans, s);
    } else {
      LengthOfInsert(spans[..n], s);
      LengthSnoc(Insert(spans[..n], s, LessEq), spans[n]);
    }
  }

  lemma {:induction false} LengthOfSorted(spans: seq<Span>)
    ensures TotalLength(SortSpans(spans)) == TotalLength(spans)
  {
    if spans != [] {
      var n := |spans| - 1;
      LengthOfSorted(spans[..n]);
      LengthOfInsert(SortSpans(spans[..n]), spans[n]);
    }
  }

  /** The census: bytes claimed counting overlaps, bytes of no span, the longest run of
      them, over spans that may overlap or nest. */
  method Census(spans: seq<Span>, length: nat) returns (claimed: nat, unclaimed: nat, largest: nat)
    requires AllReal(spans)
    ensures claimed == TotalLength(spans)
    ensures var limit := Max(length, MaxEnd(spans));
            unclaimed == Uncovered(spans, 0, limit) && IsLongestRun(spans, limit, largest)
  {
    hide Covered, Uncovered, IsLongestRun, MaxEnd, Free, SortSpans, AllReal, Sorted, StartsBefore;
    var sorted := SortSpans(spans);
    SortingKeeps(spans);
    var end := 0;
    claimed := 0;
    for i := 0 to |sorted|
      invariant claimed == TotalLength(sorted[..i])
    {
      assert sorted[..i + 1][..i] == sorted[..i];
      assert sorted[i].Real() by {
        RealAt(sorted, i);
      }
      claimed := claimed + (sorted[i].end - sorted[i].start);
    }
    LengthOfSorted(spans);
    unclaimed, largest := 0, 0;
    assert sorted[..0] == [];
    NothingSwept();
    for i := 0 to |sorted|
      invariant end == MaxEnd(sorted[..i])
      invariant unclaimed == Uncovered(sorted[..i], 0, end)
      invariant IsLongestRun(sorted[..i], end, largest)
    {
      var s := sorted[i];
      CensusTurn(sorted, i, largest);
      if s.start > end {
        unclaimed := unclaimed + (s.start - end);
        largest := Max(largest, s.start - end);
      }
      end := Max(end, s.end);
    }
    assert sorted[..|sorted|] == sorted;
    FinishCensus(sorted, length, largest);
    unclaimed := unclaimed + Beyond(length, end);
    largest := Max(largest, Beyond(length, end));
    SameCoverage(sorted, spans, 0, Max(length, end));
    SameLongestRun(sorted, spans, Max(length, end), largest);
  }

  lemma FinishCensus(spans: seq<Span>, length: nat, n: nat)
    requires AllReal(spans) && IsLongestRun(spans, MaxEnd(spans), n)
    ensures var end, limit := MaxEnd(spans), Max(length, MaxEnd(spans));
            && Uncovered(spans, 0, limit) == Uncovered(spans, 0, end) + Beyond(length, end)
            && IsLongestRun(spans, limit, Max(n, Beyond(length, end)))
  {
    var end, limit := MaxEnd(spans), Max(length, MaxEnd(spans));
    forall b | end <= b
      ensures !Covered(spans, b)
    {
      NothingPastTheEnd(spans, b);
    }
    assert Free(spans, end, limit);
    SettleCounts(spans, end, limit, limit);
    if spans != [] {
      LastByteIsCovered(spans);
    }
    LongestRunGrows(spans, spans, end, limit, limit, n);
  }

  lemma SameLongestRun(p: seq<Span>, q: seq<Span>, limit: nat, n: nat)
    requires forall b :: Covered(p, b) <==> Covered(q, b)
    requires IsLongestRun(p, limit, n)
    ensures IsLongestRun(q, limit, n)
  {
    var a: nat, b: nat :| a + n == b <= limit && Free(p, a, b);
    assert Free(q, a, b);
    forall a: nat, b: nat | a <= b <= limit && Free(q, a, b)
      ensures b - a <= n
    {
      assert Free(p, a, b);
    }
  }

  /** Where the unclaimed bytes are: before the first span, between spans and in how many
      runs, after the last. */
  method Locate(spans: seq<Span>, length: nat) returns (leading: nat, inter: nat, runs: nat, trailing: nat)
    requires AllReal(spans)
    ensures spans == [] ==> leading == 0
    ensures spans != [] ==> (exists i :: 0 <= i < |spans| && spans[i].start == leading)
    ensures forall i :: 0 <= i < |spans| ==> leading <= spans[i].start
    ensures leading <= MaxEnd(spans) && inter == Uncovered(spans, leading, MaxEnd(spans))
    ensures runs == RunStarts(spans, 0, MaxEnd(spans))
    ensures trailing == Beyond(length, MaxEnd(spans))
  {
    hide Covered, Uncovered, RunStarts, MaxEnd, Free, SortSpans, AllReal, Sorted, StartsBefore;
    var sorted := SortSpans(spans);
    SortingKeeps(spans);
    var end := 0;
    leading, inter, runs := 0, 0, 0;
    assert sorted[..0] == [];
    NothingSwept();
    for i := 0 to |sorted|
      invariant end == MaxEnd(sorted[..i])
      invariant leading == if i == 0 then 0 else sorted[0].start
      invariant leading + inter == Uncovered(sorted[..i], 0, end)
      invariant runs == RunStarts(sorted[..i], 0, end)
    {
      var s := sorted[i];
      SortedPrefix(sorted, i);
      AllRealPrefix(sorted, i);
      SweepTurn(sorted[..i], s);
      MaxEndMore(sorted[..i], s);
      if i == 0 {
        leading := s.start;
      } else if s.start > end {
        inter := inter + (s.start - end);
        runs := runs + 1;
      }
      end := Max(end, s.end);
    }
    assert sorted[..|sorted|] == sorted;
    trailing := Beyond(length, end);
    SameCoverage(sorted, spans, 0, end);
    LeadingIsLeast(spans);
    LeadingSplits(spans, leading);
  }

  lemma LeadingIsLeast(spans: seq<Span>)
    ensures var sorted := SortSpans(spans);
            spans != [] ==>
              && |sorted| == |spans|
              && (exists i :: 0 <= i < |spans| && spans[i].start == sorted[0].start)
              && (forall i :: 0 <= i < |spans| ==> sorted[0].start <= spans[i].start)
  {
    var sorted := SortSpans(spans);
    SortingKeeps(spans);
    if spans != [] {
      assert sorted[0] in multiset(spans);
      forall i | 0 <= i < |spans|
        ensures sorted[0].start <= spans[i].start
      {
        assert spans[i] in multiset(sorted);
        var j :| 0 <= j < |sorted| && sorted[j] == spans[i];
      }
    }
  }

  /** Nothing before the least start is covered. */
  lemma LeadingSplits(spans: seq<Span>, leading: nat)
    requires AllReal(spans)
    requires if spans == [] then leading == 0
             else exists i :: 0 <= i < |spans| && spans[i].start == leading
    requires forall i :: 0 <= i < |spans| ==> leading <= spans[i].start
    ensures leading <= MaxEnd(spans)
    ensures Uncovered(spans, 0, MaxEnd(spans)) == leading + Uncovered(spans, leading, MaxEnd(spans))
  {
    if spans != [] {
      var i :| 0 <= i < |spans| && spans[i].start == leading;
      assert spans[i].Real();
    }
    assert Free(spans, 0, leading);
    AllUncovered(spans, 0, leading);
    UncoveredSplit(spans, 0, leading, MaxEnd(spans));
  }

  /** What the two sweeps report about the same spans adds up. */
  lemma SweepsAgree(spans: seq<Span>, length: nat, leading: nat)
    requires AllReal(spans)
    requires if spans == [] then leading == 0
             else exists i :: 0 <= i < |spans| && spans[i].start == leading
    requires forall i :: 0 <= i < |spans| ==> leading <= spans[i].start
    ensures Uncovered(spans, 0, Max(length, MaxEnd(spans)))
            == leading + Uncovered(spans, leading, MaxEnd(spans)) + Beyond(length, MaxEnd(spans))
  {
    var end, limit := MaxEnd(spans), Max(length, MaxEnd(spans));
    LeadingSplits(spans, leading);
    forall b | end <= b
      ensures !Covered(spans, b)
    {
      NothingPastTheEnd(spans, b);
    }
    assert Free(spans, end, limit);
    SettleCounts(spans, end, limit, limit);
  }
}
