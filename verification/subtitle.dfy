/**
 * Segment-level operations of `SubtitleProcessor`: crop, merge, split and
 * re-time of pysrt items, and their duration. Each returns a modified copy;
 * no operation checks that a segment's start stays before its end.
 */
module Subtitle {
  import opened Wrappers
  import opened PyText
  import opened Sorting
  import opened Timestamp

  /** A pysrt `SubRipItem`: its number, its start and end ordinals in milliseconds, and its text. */
  datatype Segment = Segment(index: int, startMs: int, endMs: int, text: string)

  /** `get_subtitle_duration`, in milliseconds: negative when the segment ends before it starts. */
  function Duration(sub: Segment): (d: int)
    ensures sub.startMs + d == sub.endMs
    ensures d < 0 <==> sub.endMs < sub.startMs
  {
    sub.endMs - sub.startMs
  }

  /**
   * `crop_subtitle`: with a position (in microseconds), the end (or, when
   * `isEnd` is false, the start) becomes that position's time of day in whole
   * milliseconds; without one the segment is returned as it is.
   */
  function Crop(sub: Segment, isEnd: bool, position: Option<int>): (r: Segment)
    ensures position.None? ==> r == sub
    ensures r.index == sub.index && r.text == sub.text
    ensures position.Some? && isEnd ==>
      r.startMs == sub.startMs && r.endMs == (position.value % DayUs) / 1000
    ensures position.Some? && !isEnd ==>
      r.endMs == sub.endMs && r.startMs == (position.value % DayUs) / 1000
  {
    match position
    case None => sub
    case Some(p) =>
      var t := FromMicros(p);
      if isEnd then sub.(endMs := t) else sub.(startMs := t)
  }

  /**
   * `set_subtitle_timing`: each boundary that is given (in microseconds) is
   * replaced by its time of day in whole milliseconds; the other stays.
   */
  function SetTiming(sub: Segment, start: Option<int>, end: Option<int>): (r: Segment)
    ensures r.index == sub.index && r.text == sub.text
    ensures r.startMs == if start.Some? then (start.value % DayUs) / 1000 else sub.startMs
    ensures r.endMs == if end.Some? then (end.value % DayUs) / 1000 else sub.endMs
  {
    var withStart := if start.Some? then sub.(startMs := FromMicros(start.value)) else sub;
    if end.Some? then withStart.(endMs := FromMicros(end.value)) else withStart
  }

  /**
   * `split_subtitle`: a position whose time lies within the segment, both
   * ends included, cuts it into a part ending there and a part starting there,
   * each with the full text; any other position returns the segment and no
   * second part.
   */
  function SplitAt(sub: Segment, position: int): (r: (Segment, Option<Segment>))
    ensures var t := (position % DayUs) / 1000;
      if sub.startMs <= t <= sub.endMs then
        && r.1.Some?
        && r.0 == Segment(sub.index, sub.startMs, t, sub.text)
        && r.1.value == Segment(sub.index, t, sub.endMs, sub.text)
      else r == (sub, None)
  {
    var t := FromMicros(position);
    if !(sub.startMs <= t <= sub.endMs) then (sub, None)
    else (sub.(endMs := t), Some(sub.(startMs := t)))
  }

  // ---------------------------------------------------------------------------
  // Merge

  /** The in-range entries of `xs`, in their order. */
  function InRange(xs: seq<int>, n: int): (r: seq<int>)
    ensures forall k :: 0 <= k < |r| ==> 0 <= r[k] < n
  {
    if |xs| == 0 then []
    else if 0 <= xs[0] < n then [xs[0]] + InRange(xs[1..], n)
    else InRange(xs[1..], n)
  }

  /** Filtering keeps exactly the in-range occurrences. */
  lemma {:induction false} InRangeCount(xs: seq<int>, n: int)
    ensures forall x :: multiset(InRange(xs, n))[x] == if 0 <= x < n then multiset(xs)[x] else 0
  {
    if |xs| > 0 {
      InRangeCount(xs[1..], n);
      assert xs == [xs[0]] + xs[1..];
    }
  }

  /** Filtering a sorted list leaves it sorted. */
  lemma {:induction false} InRangeSorted(xs: seq<int>, n: int)
    requires Sorted(xs)
    ensures Sorted(InRange(xs, n))
  {
    if |xs| > 0 {
      var rest := InRange(xs[1..], n);
      SortedTail(xs);
      InRangeSorted(xs[1..], n);
      InRangeCount(xs[1..], n);
      forall k | 0 <= k < |rest| ensures xs[0] <= rest[k] {
        assert multiset(rest)[rest[k]] > 0;
        assert rest[k] in multiset(xs[1..]);
        var j :| 0 <= j < |xs[1..]| && xs[1..][j] == rest[k];
        assert xs[j + 1] == rest[k];
      }
      if 0 <= xs[0] < n {
        var r := [xs[0]] + rest;
        forall i, j | 0 <= i < j < |r| ensures r[i] <= r[j] {
          if i > 0 { assert r[i] == rest[i - 1] && r[j] == rest[j - 1]; }
          else { assert r[j] == rest[j - 1]; }
        }
      }
    }
  }

  /** The texts of the segments at the positions `sel`. */
  function TextsAt(subs: seq<Segment>, sel: seq<int>): (r: seq<string>)
    requires forall k :: 0 <= k < |sel| ==> 0 <= sel[k] < |subs|
    ensures |r| == |sel| && forall k :: 0 <= k < |sel| ==> r[k] == subs[sel[k]].text
  {
    seq(|sel|, k requires 0 <= k < |sel| => subs[sel[k]].text)
  }

  /** `lo` is the smallest selected index that addresses a segment. */
  ghost predicate IsFirstSelected(subs: seq<Segment>, indices: seq<int>, lo: int)
  {
    lo in indices && 0 <= lo < |subs| && forall j :: j in indices && 0 <= j < |subs| ==> lo <= j
  }

  /** `hi` is the largest selected index that addresses a segment. */
  ghost predicate IsLastSelected(subs: seq<Segment>, indices: seq<int>, hi: int)
  {
    hi in indices && 0 <= hi < |subs| && forall j :: j in indices && 0 <= j < |subs| ==> j <= hi
  }

  /** `sel` lists the selected indices that address segments, in ascending order, repeats kept. */
  ghost predicate IsSortedSelection(sel: seq<int>, indices: seq<int>, n: int)
  {
    && Sorted(sel)
    && (forall k :: 0 <= k < |sel| ==> 0 <= sel[k] < n)
    && (forall x :: multiset(sel)[x] == if 0 <= x < n then multiset(indices)[x] else 0)
  }

  /** `m` is the least entry of `xs`. */
  ghost predicate IsLeast(xs: seq<int>, m: int)
  {
    m in xs && forall x :: x in xs ==> m <= x
  }

  /**
   * `SubtitleProcessor.merge_subtitles`: with at least two indices of which
   * one addresses a segment, the merged item is a copy of the first addressed
   * segment (its index and start kept) ending where the last addressed one
   * ends, whose text joins the addressed texts in ascending order with one
   * space; the second result is the sorted indices without the smallest.
   * Otherwise nothing is merged.
   */
  function MergeSelection(subs: seq<Segment>, indices: seq<int>): (r: (Option<Segment>, seq<int>))
    ensures r.0.Some? <==> |indices| >= 2 && exists i :: i in indices && 0 <= i < |subs|
    ensures r.0.None? ==> r.1 == []
    ensures r.0.Some? ==>
      && Sorted(r.1)
      && (forall m :: IsLeast(indices, m) ==> multiset(r.1) + multiset{m} == multiset(indices))
    ensures r.0.Some? ==> forall lo, hi ::
      IsFirstSelected(subs, indices, lo) && IsLastSelected(subs, indices, hi) ==>
        && r.0.value.index == subs[lo].index
        && r.0.value.startMs == subs[lo].startMs
        && r.0.value.endMs == subs[hi].endMs
    ensures r.0.Some? ==> forall sel :: IsSortedSelection(sel, indices, |subs|) ==>
      r.0.value.text == Join(" ", TextsAt(subs, sel))
  {
    if |indices| < 2 then (None, [])
    else
      var sorted := Sort(indices);
      var chosen := InRange(sorted, |subs|);
      MergeSelectionFacts(subs, indices, sorted, chosen);
      if |chosen| == 0 then (None, [])
      else
        var first := subs[chosen[0]];
        var merged := first.(endMs := subs[chosen[|chosen| - 1]].endMs,
                             text := Join(" ", TextsAt(subs, chosen)));
        (Some(merged), sorted[1..])
  }

  lemma MergeSelectionFacts(subs: seq<Segment>, indices: seq<int>, sorted: seq<int>, chosen: seq<int>)
    requires |indices| >= 2 && Sorted(sorted) && multiset(sorted) == multiset(indices)
    requires chosen == InRange(sorted, |subs|)
    ensures |chosen| > 0 <==> exists i :: i in indices && 0 <= i < |subs|
    ensures forall sel :: IsSortedSelection(sel, indices, |subs|) ==> sel == chosen
    ensures |chosen| > 0 ==> forall lo :: IsFirstSelected(subs, indices, lo) ==> lo == chosen[0]
    ensures |chosen| > 0 ==> forall hi :: IsLastSelected(subs, indices, hi) ==> hi == chosen[|chosen| - 1]
    ensures Sorted(sorted[1..])
    ensures forall m :: IsLeast(indices, m) ==> multiset(sorted[1..]) + multiset{m} == multiset(indices)
  {
    ChosenIsSelection(subs, indices, sorted, chosen);
    forall sel | IsSortedSelection(sel, indices, |subs|) ensures sel == chosen {
      SelectionUnique(sel, chosen, indices, |subs|);
    }
    ChosenNonEmpty(subs, indices, chosen);
    if |chosen| > 0 {
      forall lo | IsFirstSelected(subs, indices, lo) ensures lo == chosen[0] {
        SelectionHeadIsFirst(subs, indices, chosen, lo);
      }
      forall hi | IsLastSelected(subs, indices, hi) ensures hi == chosen[|chosen| - 1] {
        SelectionLastIsLast(subs, indices, chosen, hi);
      }
    }
    SortedTail(sorted);
    forall m | IsLeast(indices, m) ensures multiset(sorted[1..]) + multiset{m} == multiset(indices) {
      SortedRestWithoutLeast(indices, sorted, m);
    }
  }

  lemma ChosenIsSelection(subs: seq<Segment>, indices: seq<int>, sorted: seq<int>, chosen: seq<int>)
    requires Sorted(sorted) && multiset(sorted) == multiset(indices)
    requires chosen == InRange(sorted, |subs|)
    ensures IsSortedSelection(chosen, indices, |subs|)
  {
    InRangeCount(sorted, |subs|);
    InRangeSorted(sorted, |subs|);
  }

  lemma ChosenNonEmpty(subs: seq<Segment>, indices: seq<int>, chosen: seq<int>)
    requires IsSortedSelection(chosen, indices, |subs|)
    ensures |chosen| > 0 <==> exists i :: i in indices && 0 <= i < |subs|
  {
    if exists i :: i in indices && 0 <= i < |subs| {
      var i :| i in indices && 0 <= i < |subs|;
      assert multiset(chosen)[i] > 0;
    }
    if |chosen| > 0 {
      assert multiset(chosen)[chosen[0]] > 0;
      assert chosen[0] in indices;
    }
  }

  lemma SelectionUnique(a: seq<int>, b: seq<int>, indices: seq<int>, n: int)
    requires IsSortedSelection(a, indices, n) && IsSortedSelection(b, indices, n)
    ensures a == b
  {
    assert forall x :: multiset(a)[x] == multiset(b)[x];
    assert multiset(a) == multiset(b);
    SortedPermutationUnique(a, b);
  }

  lemma SelectionHeadIsFirst(subs: seq<Segment>, indices: seq<int>, chosen: seq<int>, lo: int)
    requires IsSortedSelection(chosen, indices, |subs|) && |chosen| > 0
    requires IsFirstSelected(subs, indices, lo)
    ensures lo == chosen[0]
  {
    assert multiset(chosen)[lo] > 0;
    SortedHeadIsLeast(chosen, lo);
    assert chosen[0] in multiset(chosen);
    assert multiset(indices)[chosen[0]] > 0;
    assert chosen[0] in indices;
  }

  lemma SelectionLastIsLast(subs: seq<Segment>, indices: seq<int>, chosen: seq<int>, hi: int)
    requires IsSortedSelection(chosen, indices, |subs|) && |chosen| > 0
    requires IsLastSelected(subs, indices, hi)
    ensures hi == chosen[|chosen| - 1]
  {
    assert multiset(chosen)[hi] > 0;
    var k :| 0 <= k < |chosen| && chosen[k] == hi;
    var last := chosen[|chosen| - 1];
    assert last in multiset(chosen);
    assert multiset(indices)[last] > 0;
    assert last in indices;
  }

  lemma SortedRestWithoutLeast(indices: seq<int>, sorted: seq<int>, m: int)
    requires Sorted(sorted) && multiset(sorted) == multiset(indices) && IsLeast(indices, m)
    ensures multiset(sorted[1..]) + multiset{m} == multiset(indices)
  {
    assert m in multiset(sorted);
    SortedHeadIsLeast(sorted, m);
    assert sorted[0] in multiset(indices);
    assert sorted[0] in indices;
    assert sorted[0] == m;
    assert sorted == [m] + sorted[1..];
  }

  // ---------------------------------------------------------------------------
  // Laws

  /** Cropping one boundary is re-timing that boundary alone. */
  lemma CropIsSetTiming(sub: Segment, isEnd: bool, position: int)
    ensures Crop(sub, isEnd, Some(position)) ==
      if isEnd then SetTiming(sub, None, Some(position)) else SetTiming(sub, Some(position), None)
  {
  }

  /** Neither crop nor re-time keeps the start before the end. */
  lemma SetTimingMayInvert()
    ensures var r := SetTiming(Segment(1, 0, 1000, "a"), Some(2_000_000), None);
      Duration(r) < 0
  {
    assert (2_000_000 % DayUs) / 1000 == 2000;
  }

  /** The two parts of a split meet at the split time and share the original duration. */
  lemma {:induction false} SplitPartsMeet(sub: Segment, position: int)
    requires SplitAt(sub, position).1.Some?
    ensures var (first, second) := SplitAt(sub, position);
      && first.endMs == second.value.startMs
      && Duration(first) + Duration(second.value) == Duration(sub)
      && Duration(first) >= 0 && Duration(second.value) >= 0
      && first.startMs == sub.startMs && second.value.endMs == sub.endMs
  {
  }

  /** Merging the two parts of a split restores the original timing. */
  lemma {:induction false} MergeUndoesSplitTiming(sub: Segment, position: int)
    requires SplitAt(sub, position).1.Some?
    ensures var (first, second) := SplitAt(sub, position);
      var merged := MergeSelection([first, second.value], [0, 1]).0;
      merged.Some? && merged.value.startMs == sub.startMs && merged.value.endMs == sub.endMs
      && merged.value.index == sub.index
  {
    var (first, second) := SplitAt(sub, position);
    MergePair(first, second.value);
  }

  /** Merging the selection [0, 1] of a two-row list spans both rows and keeps the first's number. */
  lemma MergePair(a: Segment, b: Segment)
    ensures var merged := MergeSelection([a, b], [0, 1]).0;
      merged.Some? && merged.value.startMs == a.startMs && merged.value.endMs == b.endMs
      && merged.value.index == a.index
  {
    var subs := [a, b];
    assert 0 in [0, 1];
    assert IsFirstSelected(subs, [0, 1], 0);
    assert IsLastSelected(subs, [0, 1], 1);
  }
}
