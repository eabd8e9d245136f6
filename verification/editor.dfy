/**
 * The list logic of the subtitle editor widget: renumbering, deleting,
 * merging a block of table rows, splitting the selected subtitle at the text
 * cursor, adding a subtitle, and finding the subtitle under the playback
 * position. The editor is its subtitle list and the selected row (`-1` for
 * none); table refreshes, dialogs and signals are left to the widget.
 */
module SubtitleEditor {
  import opened Wrappers
  import opened PyText
  import opened Sorting
  import opened Timestamp
  import opened Subtitle

  /** The subtitle list and `current_subtitle_index`. */
  datatype EditorState = EditorState(subs: seq<Segment>, current: int)

  /** The selection is a row of the list or `-1`. */
  predicate Valid(ed: EditorState)
  {
    -1 <= ed.current < |ed.subs|
  }

  /** Why an edit did nothing: the source returns early, most often after a warning box. */
  datatype Refusal = NoSubtitles | NoSelection | NotConfirmed | TooFewRows | NotConsecutive | CursorAtEdge | EmptyPart

  /** An exception escaping the handler. */
  datatype Fault = MissingAttribute

  /** What an edit does to the editor. */
  datatype Outcome = Changed(ed: EditorState) | Refused(why: Refusal) | Raised(fault: Fault)

  /** Every subtitle is numbered by its position, from 1. */
  predicate Numbered(subs: seq<Segment>)
  {
    forall i :: 0 <= i < |subs| ==> subs[i].index == i + 1
  }

  /** What a subtitle shows, its number aside. */
  function Cue(s: Segment): (int, int, string)
  {
    (s.startMs, s.endMs, s.text)
  }

  /** The two lists show the same cues, position by position. */
  predicate SameCues(a: seq<Segment>, b: seq<Segment>)
  {
    |a| == |b| && forall i :: 0 <= i < |a| ==> Cue(a[i]) == Cue(b[i])
  }

  /** `update_indices`: number the subtitles 1 to N, changing nothing else. */
  function Renumber(subs: seq<Segment>): (r: seq<Segment>)
    ensures Numbered(r) && SameCues(r, subs)
  {
    seq(|subs|, i requires 0 <= i < |subs| => subs[i].(index := i + 1))
  }

  /** `select_subtitle`: a row of the table becomes the selection; any other index is ignored. */
  function Select(ed: EditorState, row: int): (r: EditorState)
    ensures r.subs == ed.subs
    ensures r.current == if 0 <= row < |ed.subs| then row else ed.current
  {
    if 0 <= row < |ed.subs| then ed.(current := row) else ed
  }

  /** The texts of a run of subtitles. */
  function Texts(subs: seq<Segment>): (r: seq<string>)
    ensures |r| == |subs| && forall i :: 0 <= i < |subs| ==> r[i] == subs[i].text
  {
    seq(|subs|, i requires 0 <= i < |subs| => subs[i].text)
  }

  // ---------------------------------------------------------------------------
  // Delete

  /**
   * `delete_subtitle`, with the answer to the confirmation box: the selected
   * subtitle goes, the rest are renumbered, and the selection stays on the
   * same row or moves to the new last row.
   */
  function Delete(ed: EditorState, confirmed: bool): (r: Outcome)
    requires Valid(ed)
    ensures |ed.subs| == 0 ==> r == Refused(NoSubtitles)
    ensures |ed.subs| > 0 && ed.current < 0 ==> r == Refused(NoSelection)
    ensures |ed.subs| > 0 && ed.current >= 0 && !confirmed ==> r == Refused(NotConfirmed)
    ensures r.Changed? <==> |ed.subs| > 0 && ed.current >= 0 && confirmed
    ensures r.Changed? ==>
      && Valid(r.ed)
      && Numbered(r.ed.subs)
      && SameCues(r.ed.subs, ed.subs[..ed.current] + ed.subs[ed.current + 1..])
      && r.ed.current == (if ed.current < |ed.subs| - 1 then ed.current else ed.current - 1)
  {
    if |ed.subs| == 0 then Refused(NoSubtitles)
    else if ed.current < 0 then Refused(NoSelection)
    else if !confirmed then Refused(NotConfirmed)
    else
      var subs := Renumber(ed.subs[..ed.current] + ed.subs[ed.current + 1..]);
      var current := if ed.current >= |subs| then |subs| - 1 else ed.current;
      if current >= 0 then Changed(Select(EditorState(subs, current), current))
      else Changed(EditorState(subs, current))
  }

  // ---------------------------------------------------------------------------
  // Merge

  /** The sorted rows step by one, as the merge handler's loop checks. */
  predicate Consecutive(rows: seq<int>)
  {
    forall i :: 1 <= i < |rows| ==> rows[i] == rows[i - 1] + 1
  }

  /** The rows are exactly `lo..hi`. */
  ghost predicate IsBlock(rows: seq<int>, lo: int, hi: int)
  {
    lo <= hi && forall x :: x in rows <==> lo <= x <= hi
  }

  /**
   * The deletion loop of the merge handler: rows `hi`, `hi - 1`, ..., `lo + 1`
   * are deleted in that order, which removes the block after row `lo`.
   */
  function RemoveDescending(subs: seq<Segment>, lo: int, hi: int): (r: seq<Segment>)
    requires 0 <= lo <= hi < |subs|
    ensures r == subs[..lo + 1] + subs[hi + 1..]
    decreases hi - lo
  {
    if hi == lo then subs
    else
      var r := RemoveDescending(subs[..hi] + subs[hi + 1..], lo, hi - 1);
      assert (subs[..hi] + subs[hi + 1..])[..lo + 1] == subs[..lo + 1];
      assert (subs[..hi] + subs[hi + 1..])[hi..] == subs[hi + 1..];
      r
  }

  /**
   * The merge handler of the editor widget on the selected table rows
   * (distinct rows of the list): at least two rows are needed and, once
   * sorted, they must form one block `lo..hi`. The block is then replaced by
   * one subtitle keeping the first one's start and the last one's end, with
   * the texts joined by newlines; the list is renumbered and row `lo` selected.
   */
  function MergeRows(ed: EditorState, rows: seq<int>): (r: Outcome)
    requires Valid(ed)
    requires forall k :: 0 <= k < |rows| ==> 0 <= rows[k] < |ed.subs|
    requires forall i, j :: 0 <= i < j < |rows| ==> rows[i] != rows[j]
    ensures |rows| < 2 ==> r == Refused(TooFewRows)
    ensures |rows| >= 2 ==> (r.Changed? <==> exists lo, hi :: IsBlock(rows, lo, hi))
    ensures |rows| >= 2 && !r.Changed? ==> r == Refused(NotConsecutive)
    ensures r.Changed? ==> forall lo, hi :: IsBlock(rows, lo, hi) ==> MergedBlock(ed, lo, hi, r.ed)
  {
    if |rows| < 2 then Refused(TooFewRows)
    else
      var sorted := Sort(rows);
      BlockIffConsecutive(rows, sorted);
      if !Consecutive(sorted) then Refused(NotConsecutive)
      else
        BlockBounds(ed.subs, rows, sorted);
        Changed(MergeBlock(ed, sorted))
  }

  /**
   * `after` is `ed` with rows `lo..hi` merged: the rows before are kept, row
   * `lo` spans the block's first start to its last end with the block's texts
   * joined by newlines, the rows after the block follow, all renumbered, and
   * row `lo` is selected.
   */
  ghost predicate MergedBlock(ed: EditorState, lo: int, hi: int, after: EditorState)
  {
    && 0 <= lo <= hi < |ed.subs|
    && |after.subs| == |ed.subs| - (hi - lo)
    && Valid(after)
    && after.current == lo
    && Numbered(after.subs)
    && SameCues(after.subs[..lo], ed.subs[..lo])
    && Cue(after.subs[lo]) == (ed.subs[lo].startMs, ed.subs[hi].endMs, Join("\n", Texts(ed.subs[lo..hi + 1])))
    && SameCues(after.subs[lo + 1..], ed.subs[hi + 1..])
  }

  /** The merge itself, on the sorted rows of a block. */
  function MergeBlock(ed: EditorState, sorted: seq<int>): (r: EditorState)
    requires Valid(ed) && |sorted| >= 1 && Consecutive(sorted)
    requires 0 <= sorted[0] && sorted[|sorted| - 1] < |ed.subs|
    ensures MergedBlock(ed, sorted[0], sorted[|sorted| - 1], r)
  {
    var lo, hi := sorted[0], sorted[|sorted| - 1];
    ConsecutiveSteps(sorted);
    BlockTexts(ed.subs, sorted);
    var first, last := ed.subs[lo], ed.subs[hi];
    var merged := Segment(first.index, first.startMs, last.endMs, Join("\n", TextsAt(ed.subs, sorted)));
    var removed := RemoveDescending(ed.subs[lo := merged], lo, hi);
    var result := Select(EditorState(Renumber(removed), ed.current), lo);
    MergeResult(ed, lo, hi, merged, removed, result);
    result
  }

  lemma MergeResult(ed: EditorState, lo: int, hi: int, merged: Segment, removed: seq<Segment>, result: EditorState)
    requires Valid(ed) && 0 <= lo <= hi < |ed.subs|
    requires Cue(merged) == (ed.subs[lo].startMs, ed.subs[hi].endMs, Join("\n", Texts(ed.subs[lo..hi + 1])))
    requires removed == ed.subs[lo := merged][..lo + 1] + ed.subs[lo := merged][hi + 1..]
    requires result == Select(EditorState(Renumber(removed), ed.current), lo)
    ensures MergedBlock(ed, lo, hi, result)
  {
    var subs := result.subs;
    assert |removed| == |ed.subs| - (hi - lo);
    assert SameCues(subs, removed);
    forall i | 0 <= i < lo ensures Cue(subs[..lo][i]) == Cue(ed.subs[..lo][i]) {
      assert removed[i] == ed.subs[i];
    }
    assert removed[lo] == merged;
    forall k | lo + 1 <= k < |subs| ensures Cue(subs[k]) == Cue(ed.subs[k + (hi - lo)]) {
      assert removed[k] == ed.subs[k + (hi - lo)];
    }
  }

  /** The ends of the sorted rows of a block are the only bounds the block has. */
  lemma BlockBounds(subs: seq<Segment>, rows: seq<int>, sorted: seq<int>)
    requires |rows| >= 1 && Consecutive(sorted)
    requires forall k :: 0 <= k < |rows| ==> 0 <= rows[k] < |subs|
    requires sorted == Sort(rows)
    ensures 0 <= sorted[0] && sorted[|sorted| - 1] < |subs|
    ensures forall lo, hi :: IsBlock(rows, lo, hi) ==> lo == sorted[0] && hi == sorted[|sorted| - 1]
  {
    SameMembers(rows, sorted);
    assert sorted[0] in rows && sorted[|sorted| - 1] in rows;
    ConsecutiveIsBlock(rows, sorted);
    forall lo, hi | IsBlock(rows, lo, hi) ensures lo == sorted[0] && hi == sorted[|sorted| - 1] {
      assert lo in rows && hi in rows;
    }
  }

  /** The texts of the rows of a block are the texts of the slice it covers. */
  lemma BlockTexts(subs: seq<Segment>, sorted: seq<int>)
    requires |sorted| >= 1 && 0 <= sorted[0] && sorted[|sorted| - 1] < |subs|
    requires forall i :: 0 <= i < |sorted| ==> sorted[i] == sorted[0] + i
    ensures forall k :: 0 <= k < |sorted| ==> 0 <= sorted[k] < |subs|
    ensures TextsAt(subs, sorted) == Texts(subs[sorted[0]..sorted[|sorted| - 1] + 1])
  {
  }

  /** A strictly increasing list that steps by one counts up from its head. */
  lemma {:induction false} ConsecutiveSteps(xs: seq<int>)
    requires Consecutive(xs)
    ensures forall i :: 0 <= i < |xs| ==> xs[i] == xs[0] + i
  {
    if |xs| > 1 {
      var init := xs[..|xs| - 1];
      assert Consecutive(init) by {
        forall i | 1 <= i < |init| ensures init[i] == init[i - 1] + 1 {
          assert init[i] == xs[i] && init[i - 1] == xs[i - 1];
        }
      }
      ConsecutiveSteps(init);
      forall i | 0 <= i < |xs| ensures xs[i] == xs[0] + i {
        if i < |xs| - 1 {
          assert xs[i] == init[i];
        } else {
          assert xs[i - 1] == init[i - 1];
        }
      }
    }
  }

  /** The sorted rows step by one exactly when the rows are a block. */
  lemma BlockIffConsecutive(rows: seq<int>, sorted: seq<int>)
    requires |rows| >= 1
    requires forall i, j :: 0 <= i < j < |rows| ==> rows[i] != rows[j]
    requires sorted == Sort(rows)
    ensures Consecutive(sorted) <==> exists lo, hi :: IsBlock(rows, lo, hi)
    ensures Consecutive(sorted) ==> IsBlock(rows, sorted[0], sorted[|sorted| - 1])
  {
    SortDistinct(rows);
    SameMembers(rows, sorted);
    if Consecutive(sorted) {
      ConsecutiveIsBlock(rows, sorted);
    } else if exists lo, hi :: IsBlock(rows, lo, hi) {
      var lo, hi :| IsBlock(rows, lo, hi);
      BlockIsConsecutive(sorted, lo, hi);
      assert false;
    }
  }

  lemma SameMembers(rows: seq<int>, sorted: seq<int>)
    requires multiset(sorted) == multiset(rows)
    ensures forall x :: x in rows <==> x in sorted
  {
    forall x ensures x in rows <==> x in sorted {
      assert x in rows <==> x in multiset(rows);
      assert x in sorted <==> x in multiset(sorted);
    }
  }

  lemma ConsecutiveIsBlock(rows: seq<int>, sorted: seq<int>)
    requires |sorted| >= 1 && Consecutive(sorted)
    requires forall x :: x in rows <==> x in sorted
    ensures IsBlock(rows, sorted[0], sorted[|sorted| - 1])
  {
    ConsecutiveSteps(sorted);
    var lo, hi := sorted[0], sorted[|sorted| - 1];
    forall x ensures x in sorted <==> lo <= x <= hi {
      if lo <= x <= hi {
        assert sorted[x - lo] == x;
      }
    }
  }

  /** A strictly increasing list holding exactly the integers `lo..hi` steps by one. */
  lemma BlockIsConsecutive(s: seq<int>, lo: int, hi: int)
    requires forall i :: 0 <= i < |s| - 1 ==> s[i] < s[i + 1]
    requires Sorted(s)
    requires forall x :: x in s <==> lo <= x <= hi
    ensures Consecutive(s)
  {
    forall i | 1 <= i < |s| ensures s[i] == s[i - 1] + 1 {
      var x := s[i - 1] + 1;
      assert s[i - 1] < s[i];
      assert s[i - 1] in s && s[i] in s;
      assert x in s;
      var j :| 0 <= j < |s| && s[j] == x;
      SortedIndexOrder(s, i - 1, j);
      assert s[i] <= s[j];
    }
  }

  /** In a sorted list a smaller value sits at a smaller index. */
  lemma SortedIndexOrder(s: seq<int>, a: int, b: int)
    requires Sorted(s) && 0 <= a < |s| && 0 <= b < |s| && s[a] < s[b]
    ensures a < b
  {
  }

  // ---------------------------------------------------------------------------
  // Split at the text cursor

  /** Nothing but whitespace: `strip()` leaves nothing. */
  predicate Blank(s: string)
  {
    forall k :: 0 <= k < |s| ==> IsSpace(s[k])
  }

  /** `t` lies between `a` and `b`, in whichever order they come. */
  predicate Between(t: int, a: int, b: int)
  {
    a <= t <= b || b <= t <= a
  }

  /** `int(a * (c / n))` taken exactly: the quotient `a * c / n` truncated toward zero. */
  function TruncDiv(a: int, n: int): (q: int)
    requires n > 0
    ensures a >= 0 ==> 0 <= q * n <= a < q * n + n
    ensures a < 0 ==> q * n - n < a <= q * n <= 0
  {
    if a >= 0 then
      DivBounds(a, n);
      a / n
    else
      DivBounds(-a, n);
      NegateProduct((-a) / n, n);
      -((-a) / n)
  }

  /** Euclidean division of a natural number brackets it between two multiples. */
  lemma DivBounds(m: nat, n: int)
    requires n > 0
    ensures 0 <= (m / n) * n <= m < (m / n) * n + n
  {
    var p := m / n;
    assert m == p * n + m % n;
    MulMonotone(n, 0, p);
  }

  lemma NegateProduct(p: int, n: int)
    ensures (-p) * n == -(p * n)
  {
  }

  /**
   * The split time of a subtitle from `startMs` to `endMs` whose text has
   * `length` characters, cut at `cursor`: the start plus the duration's share
   * for the text before the cursor, truncated toward zero. It lies between
   * the two ends.
   */
  function SplitTime(startMs: int, endMs: int, cursor: int, length: int): (t: int)
    requires 0 < cursor < length
    ensures Between(t, startMs, endMs)
    ensures var p := (endMs - startMs) * cursor;
      (p >= 0 ==> 0 <= (t - startMs) * length <= p < (t - startMs) * length + length)
      && (p < 0 ==> (t - startMs) * length - length < p <= (t - startMs) * length <= 0)
  {
    var d := endMs - startMs;
    var q := TruncDiv(d * cursor, length);
    ShareWithin(d, cursor, length, q);
    startMs + q
  }

  lemma ShareWithin(d: int, c: int, n: int, q: int)
    requires 0 < c < n
    requires d * c >= 0 ==> 0 <= q * n <= d * c
    requires d * c < 0 ==> d * c <= q * n <= 0
    ensures Between(q, 0, d)
  {
    if d >= 0 {
      assert d * c <= d * n by { MulMonotone(d, c, n); }
      assert q * n <= d * n;
      assert q >= 0 by { if q < 0 { MulNegative(q, n); } }
      if q > d { MulStrict(d, q, n); }
    } else {
      assert d * c < 0 by { MulNegative(d, c); }
      assert d * n <= d * c by { MulMonotone(-d, c, n); }
      assert d * n <= q * n;
      assert q <= 0 by { if q > 0 { MulPositive(q, n); } }
      if q < d { MulStrict(q, d, n); }
    }
  }

  lemma MulMonotone(a: int, b: int, c: int)
    requires a >= 0 && b <= c
    ensures a * b <= a * c
  {
  }

  lemma MulStrict(a: int, b: int, n: int)
    requires a < b && n > 0
    ensures a * n < b * n
  {
  }

  lemma MulNegative(a: int, n: int)
    requires a < 0 && n > 0
    ensures a * n < 0
  {
  }

  lemma MulPositive(a: int, n: int)
    requires a > 0 && n > 0
    ensures a * n > 0
  {
  }

  /** Where the cut goes and the two stripped texts. */
  datatype Cut = Cut(at: int, before: string, after: string)

  /** The checks of the split handler, then the cut it computes. */
  function PlanSplit(ed: EditorState, cursor: int): (r: Result<Cut, Refusal>)
    requires Valid(ed)
  {
    if |ed.subs| == 0 then Err(NoSubtitles)
    else if ed.current < 0 then Err(NoSelection)
    else
      var s := ed.subs[ed.current];
      if cursor <= 0 || cursor >= |s.text| then Err(CursorAtEdge)
      else
        var before, after := Strip(s.text[..cursor]), Strip(s.text[cursor..]);
        if before == [] || after == [] then Err(EmptyPart)
        else Ok(Cut(SplitTime(s.startMs, s.endMs, cursor, |s.text|), before, after))
  }

  /** A subtitle is selected and the cursor has non-blank text on both sides. */
  ghost predicate SplitAllowed(ed: EditorState, cursor: int)
  {
    && Valid(ed) && |ed.subs| > 0 && ed.current >= 0
    && 0 < cursor < |ed.subs[ed.current].text|
    && !Blank(ed.subs[ed.current].text[..cursor])
    && !Blank(ed.subs[ed.current].text[cursor..])
  }

  /**
   * `after` is `ed` with the selected subtitle cut at `cursor`: it keeps its
   * start and ends at the split time, the start plus the share of the
   * duration taken by the text before the cursor (so between its ends), with the stripped text before
   * the cursor; a new subtitle follows from that time to `secondEnd` with the
   * stripped text after the cursor; everything else is kept, the list is
   * renumbered and the first part stays selected.
   */
  ghost predicate SplitInto(ed: EditorState, cursor: int, after: EditorState, keepsEnd: bool)
  {
    && SplitShape(ed, cursor, after, keepsEnd)
    && after.subs[ed.current].endMs == SplitTime(ed.subs[ed.current].startMs, ed.subs[ed.current].endMs, cursor, |ed.subs[ed.current].text|)
  }

  /** `SplitInto` with the cut anywhere between the subtitle's ends. */
  ghost predicate SplitShape(ed: EditorState, cursor: int, after: EditorState, keepsEnd: bool)
  {
    && 0 <= ed.current < |ed.subs|
    && var c := ed.current;
    && var s := ed.subs[c];
    && 0 < cursor < |s.text|
    && |after.subs| == |ed.subs| + 1
    && after.current == c
    && Numbered(after.subs)
    && SameCues(after.subs[..c], ed.subs[..c])
    && SameCues(after.subs[c + 2..], ed.subs[c + 1..])
    && var t := after.subs[c].endMs;
    && Between(t, s.startMs, s.endMs)
    && Cue(after.subs[c]) == (s.startMs, t, Strip(s.text[..cursor]))
    && Cue(after.subs[c + 1]) == (t, if keepsEnd then s.endMs else t, Strip(s.text[cursor..]))
  }

  /** The list after the cut: the first part, the second part from the cut to `secondEnd`, renumbered. */
  function ApplyCut(ed: EditorState, cursor: int, cut: Cut, secondEnd: int): (r: EditorState)
    requires 0 <= ed.current < |ed.subs|
  {
    var c := ed.current;
    var s := ed.subs[c];
    var first := s.(text := cut.before, endMs := cut.at);
    var second := Segment(s.index + 1, cut.at, secondEnd, cut.after);
    Select(EditorState(Renumber(ed.subs[..c] + [first, second] + ed.subs[c + 1..]), c), c)
  }

  lemma ApplyCutShape(ed: EditorState, cursor: int, cut: Cut, keepsEnd: bool)
    requires SplitAllowed(ed, cursor)
    requires PlanSplit(ed, cursor) == Ok(cut)
    ensures var s := ed.subs[ed.current];
      SplitInto(ed, cursor, ApplyCut(ed, cursor, cut, if keepsEnd then s.endMs else cut.at), keepsEnd)
  {
    CutFacts(ed, cursor, cut);
    CutInto(ed, cursor, cut, keepsEnd);
  }

  /** An accepted cut lies between the subtitle's ends and carries the two stripped halves. */
  lemma CutFacts(ed: EditorState, cursor: int, cut: Cut)
    requires SplitAllowed(ed, cursor)
    requires PlanSplit(ed, cursor) == Ok(cut)
    ensures var s := ed.subs[ed.current];
      && cut.at == SplitTime(s.startMs, s.endMs, cursor, |s.text|)
      && Between(cut.at, s.startMs, s.endMs)
      && cut.before == Strip(s.text[..cursor]) && cut.after == Strip(s.text[cursor..])
  {
  }

  lemma CutInto(ed: EditorState, cursor: int, cut: Cut, keepsEnd: bool)
    requires 0 <= ed.current < |ed.subs|
    requires var s := ed.subs[ed.current];
      && 0 < cursor < |s.text|
      && Between(cut.at, s.startMs, s.endMs)
      && cut.before == Strip(s.text[..cursor]) && cut.after == Strip(s.text[cursor..])
    ensures var s := ed.subs[ed.current];
      var after := ApplyCut(ed, cursor, cut, if keepsEnd then s.endMs else cut.at);
      SplitShape(ed, cursor, after, keepsEnd) && after.subs[ed.current].endMs == cut.at
  {
    var c := ed.current;
    var s := ed.subs[c];
    var secondEnd := if keepsEnd then s.endMs else cut.at;
    var first := s.(text := cut.before, endMs := cut.at);
    var second := Segment(s.index + 1, cut.at, secondEnd, cut.after);
    var after := ApplyCut(ed, cursor, cut, secondEnd);
    assert after == EditorState(Renumber(ed.subs[..c] + [first, second] + ed.subs[c + 1..]), c);
    RenumberedCut(ed, cursor, after, first, second, keepsEnd);
  }

  lemma RenumberedCut(ed: EditorState, cursor: int, after: EditorState, first: Segment, second: Segment, keepsEnd: bool)
    requires 0 <= ed.current < |ed.subs|
    requires var s := ed.subs[ed.current];
      && 0 < cursor < |s.text|
      && Between(first.endMs, s.startMs, s.endMs)
      && Cue(first) == (s.startMs, first.endMs, Strip(s.text[..cursor]))
      && Cue(second) == (first.endMs, if keepsEnd then s.endMs else first.endMs, Strip(s.text[cursor..]))
    requires after == EditorState(Renumber(ed.subs[..ed.current] + [first, second] + ed.subs[ed.current + 1..]), ed.current)
    ensures SplitShape(ed, cursor, after, keepsEnd) && after.subs[ed.current].endMs == first.endMs
  {
    ReplaceWithTwo(ed.subs, ed.current, first, second);
  }

  /** Renumbering after one subtitle is replaced by two shifts the rest by one and keeps their cues. */
  lemma ReplaceWithTwo(subs: seq<Segment>, c: int, a: Segment, b: Segment)
    requires 0 <= c < |subs|
    ensures var r := Renumber(subs[..c] + [a, b] + subs[c + 1..]);
      && |r| == |subs| + 1
      && SameCues(r[..c], subs[..c])
      && Cue(r[c]) == Cue(a) && Cue(r[c + 1]) == Cue(b)
      && SameCues(r[c + 2..], subs[c + 1..])
  {
    var mid := subs[..c] + [a, b] + subs[c + 1..];
    var r := Renumber(mid);
    forall k | c + 2 <= k < |r| ensures Cue(r[k]) == Cue(subs[k - 1]) {
      assert mid[k] == subs[k - 1];
    }
    forall k | 0 <= k < c ensures Cue(r[k]) == Cue(subs[k]) {
      assert mid[k] == subs[k];
    }
    assert mid[c] == a && mid[c + 1] == b;
  }

  /** The split step allows exactly the cursors `SplitAllowed` describes. */
  lemma PlanSplitAllowed(ed: EditorState, cursor: int)
    requires Valid(ed)
    ensures PlanSplit(ed, cursor).Ok? <==> SplitAllowed(ed, cursor)
  {
  }

  /**
   * `split_subtitle` of the editor, as intended: the second part ends where
   * the subtitle ended. Refused without a selection, with the cursor at either
   * end of the text, or with only whitespace on one side.
   */
  function SplitAtCursor(ed: EditorState, cursor: int): (r: Outcome)
    requires Valid(ed)
    ensures r.Changed? <==> SplitAllowed(ed, cursor)
    ensures r.Changed? ==> SplitInto(ed, cursor, r.ed, true)
  {
    PlanSplitAllowed(ed, cursor);
    match PlanSplit(ed, cursor)
    case Err(why) => Refused(why)
    case Ok(cut) =>
      ApplyCutShape(ed, cursor, cut, true);
      Changed(ApplyCut(ed, cursor, cut, ed.subs[ed.current].endMs))
  }

  /**
   * Why the split handler refuses: nothing loaded, nothing selected, the
   * cursor at either end of the text, or only whitespace on one side of it.
   */
  lemma SplitRefusals(ed: EditorState, cursor: int)
    requires Valid(ed)
    ensures |ed.subs| == 0 ==> SplitAtCursor(ed, cursor) == Refused(NoSubtitles)
    ensures |ed.subs| > 0 && ed.current < 0 ==> SplitAtCursor(ed, cursor) == Refused(NoSelection)
    ensures |ed.subs| > 0 && ed.current >= 0 && !(0 < cursor < |ed.subs[ed.current].text|) ==>
      SplitAtCursor(ed, cursor) == Refused(CursorAtEdge)
    ensures (&& |ed.subs| > 0 && ed.current >= 0 && 0 < cursor < |ed.subs[ed.current].text|
             && (Blank(ed.subs[ed.current].text[..cursor]) || Blank(ed.subs[ed.current].text[cursor..]))) ==>
      SplitAtCursor(ed, cursor) == Refused(EmptyPart)
  {
  }

  /**
   * `split_subtitle` of the editor as written: the first part's end is set to
   * the split time before the second part copies it, so the second part ends
   * where it starts.
   */
  function SplitAtCursorAsWritten(ed: EditorState, cursor: int): (r: Outcome)
    requires Valid(ed)
    ensures r.Changed? <==> SplitAllowed(ed, cursor)
    ensures !r.Changed? ==> r == SplitAtCursor(ed, cursor)
    ensures r.Changed? ==> SplitInto(ed, cursor, r.ed, false)
  {
    PlanSplitAllowed(ed, cursor);
    match PlanSplit(ed, cursor)
    case Err(why) => Refused(why)
    case Ok(cut) =>
      ApplyCutShape(ed, cursor, cut, false);
      var s := ed.subs[ed.current].(endMs := cut.at);
      Changed(ApplyCut(ed, cursor, cut, s.endMs))
  }

  // ---------------------------------------------------------------------------
  // Add

  /** The length the add handler gives a new subtitle. */
  const AddedLengthMs: int := 5000

  /** The whole seconds of a time, as the add handler adds up its fields. */
  function WholeSeconds(t: int): (w: int)
    ensures w == t / 1000
  {
    PartsOfTime(t);
    var w := Hours(t) * 3600 + Minutes(t) * 60 + Seconds(t);
    assert t == w * 1000 + Millis(t);
    ModUnique(t, 1000, w, Millis(t));
    w
  }

  /**
   * `after` is `ed` with a subtitle showing `cue` placed at row `p`, the
   * others kept in order around it, and row `p` selected.
   */
  ghost predicate InsertedAt(ed: EditorState, p: int, cue: (int, int, string), after: EditorState)
  {
    && 0 <= p <= |ed.subs|
    && |after.subs| == |ed.subs| + 1
    && after.current == p
    && SameCues(after.subs[..p], ed.subs[..p])
    && Cue(after.subs[p]) == cue
    && SameCues(after.subs[p + 1..], ed.subs[p..])
  }

  /**
   * The add handler with nothing selected: a subtitle numbered one past the
   * count, empty, starting where the last one ends and lasting five seconds,
   * goes at the end and is selected. The list is not renumbered.
   */
  function AddAtEnd(ed: EditorState): (r: EditorState)
    requires |ed.subs| > 0
    ensures var e := ed.subs[|ed.subs| - 1].endMs;
      r.subs == ed.subs + [Segment(|ed.subs| + 1, e, e + AddedLengthMs, "")]
    ensures InsertedAt(ed, |ed.subs|, (ed.subs[|ed.subs| - 1].endMs, ed.subs[|ed.subs| - 1].endMs + AddedLengthMs, ""), r)
    ensures Numbered(ed.subs) ==> Numbered(r.subs)
  {
    var start := ed.subs[|ed.subs| - 1].endMs;
    PartsOfTime(start);
    var end := FromParts(Hours(start), Minutes(start), Seconds(start) + 5, Millis(start));
    var subs := ed.subs + [Segment(|ed.subs| + 1, start, end, "")];
    assert subs[..|ed.subs|] == ed.subs;
    Select(EditorState(subs, ed.current), |subs| - 1)
  }

  /**
   * The add handler with row `c` selected, as intended: an empty subtitle
   * starting where row `c` ends goes after it and is selected. It lasts five
   * seconds, unless a next subtitle starts sooner, counted in whole seconds,
   * in which case it ends where that one starts. The list is renumbered.
   */
  function AddAfter(ed: EditorState): (r: EditorState)
    requires Valid(ed) && ed.current >= 0
    ensures var c := ed.current;
      var e := ed.subs[c].endMs;
      var end := if c < |ed.subs| - 1 && e / 1000 + 5 > ed.subs[c + 1].startMs / 1000
                 then ed.subs[c + 1].startMs else e + AddedLengthMs;
      InsertedAt(ed, c + 1, (e, end, ""), r) && Numbered(r.subs)
  {
    var c := ed.current;
    var start := ed.subs[c].endMs;
    var end := if c < |ed.subs| - 1 && WholeSeconds(start) + 5 > WholeSeconds(ed.subs[c + 1].startMs)
               then ed.subs[c + 1].startMs else start + AddedLengthMs;
    InsertAfter(ed, Segment(|ed.subs| + 1, start, end, ""))
  }

  /** Insert `sub` after the selected row, renumber, and select it. */
  function InsertAfter(ed: EditorState, sub: Segment): (r: EditorState)
    requires Valid(ed) && ed.current >= 0
    ensures InsertedAt(ed, ed.current + 1, Cue(sub), r) && Numbered(r.subs)
  {
    var c := ed.current;
    var mid := ed.subs[..c + 1] + [sub] + ed.subs[c + 1..];
    var subs := Renumber(mid);
    forall k | c + 2 <= k < |subs| ensures Cue(subs[k]) == Cue(ed.subs[k - 1]) {
      assert mid[k] == ed.subs[k - 1];
    }
    forall k | 0 <= k < c + 1 ensures Cue(subs[k]) == Cue(ed.subs[k]) {
      assert mid[k] == ed.subs[k];
    }
    assert mid[c + 1] == sub;
    Select(EditorState(subs, c), c + 1)
  }

  /** `add_subtitle`, as intended: refused when nothing is loaded, otherwise one subtitle more. */
  function AddSubtitle(ed: EditorState): (r: Outcome)
    requires Valid(ed)
    ensures |ed.subs| == 0 <==> r == Refused(NoSubtitles)
    ensures |ed.subs| > 0 ==> r.Changed? && Valid(r.ed) && |r.ed.subs| == |ed.subs| + 1
    ensures |ed.subs| > 0 && ed.current < 0 ==> r == Changed(AddAtEnd(ed))
    ensures |ed.subs| > 0 && ed.current >= 0 ==> r == Changed(AddAfter(ed))
  {
    if |ed.subs| == 0 then Refused(NoSubtitles)
    else if ed.current >= 0 then Changed(AddAfter(ed))
    else Changed(AddAtEnd(ed))
  }

  /**
   * `add_subtitle` as written. With nothing selected it is `AddSubtitle`.
   * With a row selected that has a next row, reading `next_sub.seconds` raises
   * before anything changes; with the last row selected, the new subtitle
   * ends at the absolute time 0:00:05.
   */
  function AddSubtitleAsWritten(ed: EditorState): (r: Outcome)
    requires Valid(ed)
    ensures |ed.subs| == 0 || ed.current < 0 ==> r == AddSubtitle(ed)
    ensures |ed.subs| > 0 && 0 <= ed.current < |ed.subs| - 1 ==> r == Raised(MissingAttribute)
    ensures |ed.subs| > 0 && ed.current == |ed.subs| - 1 ==>
      r.Changed? && InsertedAt(ed, |ed.subs|, (ed.subs[ed.current].endMs, 5 * SecondMs, ""), r.ed)
  {
    if |ed.subs| == 0 then Refused(NoSubtitles)
    else if ed.current >= 0 then
      var c := ed.current;
      var start := ed.subs[c].endMs;
      var end := FromParts(0, 0, 5, 0);
      if c < |ed.subs| - 1 then Raised(MissingAttribute)
      else Changed(InsertAfter(ed, Segment(|ed.subs| + 1, start, end, "")))
    else Changed(AddAtEnd(ed))
  }

  // ---------------------------------------------------------------------------
  // Highlight

  /** The subtitle covers a playback position given in microseconds, both ends included. */
  predicate Covers(s: Segment, us: int)
  {
    s.startMs * 1000 <= us <= s.endMs * 1000
  }

  /** A time's fields added up in seconds, as the highlight handler does, here in microseconds. */
  function FieldMicros(t: int): (us: int)
    ensures us == t * 1000
  {
    PartsOfTime(t);
    ((Hours(t) * 3600 + Minutes(t) * 60 + Seconds(t)) * 1000 + Millis(t)) * 1000
  }

  /** The search loop of `highlight_subtitle_at_position`: the first subtitle covering the position, or `-1`. */
  method FindAt(subs: seq<Segment>, us: int) returns (found: int)
    ensures -1 <= found < |subs|
    ensures found == -1 <==> forall j :: 0 <= j < |subs| ==> !Covers(subs[j], us)
    ensures found >= 0 ==> Covers(subs[found], us) && forall j :: 0 <= j < found ==> !Covers(subs[j], us)
  {
    var i := 0;
    while i < |subs|
      invariant 0 <= i <= |subs|
      invariant forall j :: 0 <= j < i ==> !Covers(subs[j], us)
    {
      var s := subs[i];
      if FieldMicros(s.startMs) <= us <= FieldMicros(s.endMs) {
        return i;
      }
      i := i + 1;
    }
    return -1;
  }

  /**
   * `highlight_subtitle_at_position`: the first subtitle covering the
   * position becomes the selection; when none does, nothing changes.
   */
  method Highlight(ed: EditorState, us: int) returns (r: EditorState)
    requires Valid(ed)
    ensures r.subs == ed.subs && Valid(r)
    ensures (forall j :: 0 <= j < |ed.subs| ==> !Covers(ed.subs[j], us)) ==> r == ed
    ensures (exists j :: 0 <= j < |ed.subs| && Covers(ed.subs[j], us)) ==>
      && 0 <= r.current
      && Covers(ed.subs[r.current], us)
      && forall j :: 0 <= j < r.current ==> !Covers(ed.subs[j], us)
  {
    if |ed.subs| == 0 {
      return ed;
    }
    var found := FindAt(ed.subs, us);
    r := ed;
    if found >= 0 && found != ed.current {
      r := Select(ed, found);
    }
  }

  // ---------------------------------------------------------------------------
  // Laws

  /** Renumbering is characterised by its contract: numbered, same cues. */
  lemma {:induction false} RenumberUnique(a: seq<Segment>, b: seq<Segment>)
    requires Numbered(a) && SameCues(a, b)
    ensures a == Renumber(b)
  {
    var r := Renumber(b);
    forall i | 0 <= i < |a| ensures a[i] == r[i] {
      assert Cue(a[i]) == Cue(b[i]) == Cue(r[i]);
    }
  }

  /** Renumbering twice is renumbering once, and a numbered list is left alone. */
  lemma {:induction false} RenumberIdempotent(subs: seq<Segment>)
    ensures Renumber(Renumber(subs)) == Renumber(subs)
    ensures Numbered(subs) ==> Renumber(subs) == subs
  {
    RenumberUnique(Renumber(subs), Renumber(subs));
    if Numbered(subs) {
      assert SameCues(subs, subs);
      RenumberUnique(subs, subs);
    }
  }

  /** Removing the row just inserted gives back the cues that were there. */
  lemma {:induction false} RemoveInserted(ed: EditorState, p: int, cue: (int, int, string), after: EditorState)
    requires InsertedAt(ed, p, cue, after)
    ensures SameCues(after.subs[..p] + after.subs[p + 1..], ed.subs)
  {
    var rest := after.subs[..p] + after.subs[p + 1..];
    forall i | 0 <= i < |rest| ensures Cue(rest[i]) == Cue(ed.subs[i]) {
      if i < p {
        assert rest[i] == after.subs[..p][i];
        assert ed.subs[i] == ed.subs[..p][i];
      } else {
        assert rest[i] == after.subs[p + 1..][i - p];
        assert ed.subs[i] == ed.subs[p..][i - p];
      }
    }
  }

  /** Deleting the subtitle just added restores the list, renumbered. */
  lemma {:induction false} DeleteUndoesAdd(ed: EditorState)
    requires Valid(ed) && |ed.subs| > 0
    ensures var added := AddSubtitle(ed).ed;
      Valid(added) && Delete(added, true).Changed? && Delete(added, true).ed.subs == Renumber(ed.subs)
  {
    var added := AddSubtitle(ed).ed;
    var c := ed.current;
    var p := if c < 0 then |ed.subs| else c + 1;
    assert InsertedAt(ed, p, Cue(added.subs[p]), added);
    RemoveInserted(ed, p, Cue(added.subs[p]), added);
    var d := Delete(added, true).ed;
    RenumberUnique(d.subs, ed.subs);
  }

  /** Merging a row with the next one: the two rows selected in the table. */
  function MergeWithNext(ed: EditorState, c: int): (r: Outcome)
    requires Valid(ed) && 0 <= c && c + 1 < |ed.subs|
    ensures r.Changed? && MergedBlock(ed, c, c + 1, r.ed)
  {
    assert IsBlock([c, c + 1], c, c + 1);
    MergeRows(ed, [c, c + 1])
  }

  /** `after` has the cues of `subs` except at row `c`, which shows `cue`. */
  ghost predicate RowReplaced(subs: seq<Segment>, c: int, after: seq<Segment>, cue: (int, int, string))
  {
    && 0 <= c < |subs| && |after| == |subs|
    && SameCues(after[..c], subs[..c])
    && Cue(after[c]) == cue
    && SameCues(after[c + 1..], subs[c + 1..])
  }

  /** The cues after merging back the two parts of a split. */
  lemma SplitThenMerge(ed: EditorState, cursor: int, split: EditorState, merged: EditorState, keepsEnd: bool)
    requires SplitInto(ed, cursor, split, keepsEnd)
    requires MergedBlock(split, ed.current, ed.current + 1, merged)
    ensures var s := ed.subs[ed.current];
      RowReplaced(ed.subs, ed.current, merged.subs,
        (s.startMs, if keepsEnd then s.endMs else split.subs[ed.current].endMs,
         Strip(s.text[..cursor]) + "\n" + Strip(s.text[cursor..])))
  {
    var c := ed.current;
    SameCuesTrans(merged.subs[..c], split.subs[..c], ed.subs[..c]);
    SameCuesTrans(merged.subs[c + 1..], split.subs[c + 2..], ed.subs[c + 1..]);
    JoinPairTexts(split.subs, c);
  }

  lemma SameCuesTrans(a: seq<Segment>, b: seq<Segment>, c: seq<Segment>)
    requires SameCues(a, b) && SameCues(b, c)
    ensures SameCues(a, c)
  {
  }

  /** Two neighbouring texts joined by a newline. */
  lemma JoinPairTexts(subs: seq<Segment>, c: int)
    requires 0 <= c && c + 1 < |subs|
    ensures Join("\n", Texts(subs[c..c + 2])) == subs[c].text + "\n" + subs[c + 1].text
  {
    var pair := subs[c..c + 2];
    assert Texts(pair) == [subs[c].text, subs[c + 1].text];
    assert Texts(pair)[1..] == [subs[c + 1].text];
  }

  /**
   * Merging the two parts of a split gives back the subtitle's start and
   * end, its neighbours untouched, with the two stripped texts on two lines.
   */
  lemma {:induction false} MergeUndoesSplit(ed: EditorState, cursor: int, split: EditorState)
    requires SplitInto(ed, cursor, split, true)
    ensures var c := ed.current;
      var s := ed.subs[c];
      && Valid(split) && c + 1 < |split.subs|
      && var merged := MergeWithNext(split, c);
      && merged.Changed?
      && RowReplaced(ed.subs, c, merged.ed.subs, (s.startMs, s.endMs, Strip(s.text[..cursor]) + "\n" + Strip(s.text[cursor..])))
  {
    SplitThenMerge(ed, cursor, split, MergeWithNext(split, ed.current).ed, true);
  }

  /**
   * As written, the second part of a split always ends where it starts, so
   * merging the parts back ends the subtitle at the cut, not at its old end.
   */
  lemma {:induction false} SplitAsWrittenLosesEnd(ed: EditorState, cursor: int, split: EditorState)
    requires SplitInto(ed, cursor, split, false)
    ensures var c := ed.current;
      && Valid(split) && c + 1 < |split.subs|
      && Duration(split.subs[c + 1]) == 0
      && var merged := MergeWithNext(split, c);
      && merged.Changed?
      && merged.ed.subs[c].endMs == split.subs[c].endMs
  {
    SplitThenMerge(ed, cursor, split, MergeWithNext(split, ed.current).ed, false);
  }

  /** A witness: a one-second subtitle "a b" cut after "a" ends at 333 ms once the parts are merged back. */
  lemma SplitAsWrittenExample()
    ensures var ed := EditorState([Segment(1, 0, 1000, "a b")], 0);
      var split := SplitAtCursorAsWritten(ed, 1);
      && split.Changed? && |split.ed.subs| == 2
      && split.ed.subs[1].startMs == 333 && split.ed.subs[1].endMs == 333
      && SplitAtCursor(ed, 1).ed.subs[1].endMs == 1000
  {
    var ed := EditorState([Segment(1, 0, 1000, "a b")], 0);
    assert ed.subs[0].text[..1] == "a" && ed.subs[0].text[1..] == " b";
    assert !Blank("a") by { assert !IsSpace("a"[0]); }
    assert !Blank(" b") by { assert !IsSpace(" b"[1]); }
    assert SplitAllowed(ed, 1);
    assert SplitTime(0, 1000, 1, 3) == 333;
  }

  /** A witness: with the last of two subtitles selected, the added one ends at 0:00:05, before it starts. */
  lemma AddAsWrittenExample()
    ensures var ed := EditorState([Segment(1, 0, 2000, "a"), Segment(2, 8000, 9000, "b")], 1);
      var added := AddSubtitleAsWritten(ed);
      && added.Changed? && added.ed.subs[2].startMs == 9000 && added.ed.subs[2].endMs == 5000
      && AddSubtitle(ed).ed.subs[2].endMs == 14000
  {
  }

  /** A witness: with the first of two subtitles selected, the add handler raises as written. */
  lemma AddAsWrittenRaises()
    ensures var ed := EditorState([Segment(1, 0, 2000, "a"), Segment(2, 8000, 9000, "b")], 0);
      && AddSubtitleAsWritten(ed) == Raised(MissingAttribute)
      && AddSubtitle(ed).Changed? && AddSubtitle(ed).ed.subs[1].endMs == 7000
  {
  }
}
