/**
 * Turning an AWS Transcribe result into numbered subtitles: pronunciation
 * items are read in order and gathered into segments, a new segment starting
 * whenever a word begins half a second or more after the previous word ended.
 */
module Transcript {
  import opened Wrappers
  import opened PyText
  import opened Timestamp
  import opened Subtitle

  /** Gap, in milliseconds, at or above which the next word starts a new segment. */
  const GapThresholdMs: int := 500

  /** Item `type`: only pronunciations carry words; every other type is skipped. */
  datatype ItemKind = Pronunciation | Punctuation

  /**
   * One transcript item: its type, its start and end in milliseconds, and the
   * `content` of each of its alternatives (an item without an `alternatives`
   * key reads as one alternative with empty content).
   */
  datatype Item = Item(kind: ItemKind, startMs: int, endMs: int, alternatives: seq<string>)

  /** A pronunciation reduced to its timing and the content of its first alternative. */
  datatype Word = Word(startMs: int, endMs: int, content: string)

  /** A segment under construction or finished: first start, last end, joined text. */
  datatype Group = Group(startMs: int, endMs: int, text: string)

  /** A pronunciation whose alternatives list is empty: reading its first alternative fails. */
  predicate Unreadable(it: Item)
  {
    it.kind == Pronunciation && |it.alternatives| == 0
  }

  /** Number of pronunciation items. */
  function SpokenCount(items: seq<Item>): nat
  {
    if |items| == 0 then 0
    else (if items[0].kind == Pronunciation then 1 else 0) + SpokenCount(items[1..])
  }

  /** Reference filter: the pronunciation items, in their order. */
  function Spoken(items: seq<Item>): (r: seq<Item>)
    ensures |r| == SpokenCount(items)
    ensures forall j :: 0 <= j < |r| ==> r[j].kind == Pronunciation && r[j] in items
    ensures forall i :: 0 <= i < |items| && items[i].kind == Pronunciation ==>
      SpokenCount(items[..i]) < |r| && r[SpokenCount(items[..i])] == items[i]
  {
    if |items| == 0 then []
    else
      var tail := Spoken(items[1..]);
      var r := if items[0].kind == Pronunciation then [items[0]] + tail else tail;
      SpokenStep(items, tail, r);
      r
  }

  /** One step of `Spoken`'s order clause: from the rest of the items to all of them. */
  lemma SpokenStep(items: seq<Item>, tail: seq<Item>, r: seq<Item>)
    requires |items| > 0
    requires forall i :: 0 <= i < |items[1..]| && items[1..][i].kind == Pronunciation ==>
      SpokenCount(items[1..][..i]) < |tail| && tail[SpokenCount(items[1..][..i])] == items[1..][i]
    requires r == if items[0].kind == Pronunciation then [items[0]] + tail else tail
    ensures forall i :: 0 <= i < |items| && items[i].kind == Pronunciation ==>
      SpokenCount(items[..i]) < |r| && r[SpokenCount(items[..i])] == items[i]
  {
    assert SpokenCount(items[..1]) == if items[0].kind == Pronunciation then 1 else 0
      by { assert items[..1][1..] == []; }
    forall i | 0 <= i < |items| && items[i].kind == Pronunciation
      ensures SpokenCount(items[..i]) < |r| && r[SpokenCount(items[..i])] == items[i]
    {
      if i == 0 {
        assert items[..0] == [];
      } else {
        SpokenCountHead(items, i);
        assert items[i] == items[1..][i - 1];
      }
    }
  }

  /** Counting a prefix of length `i >= 1` counts the head, then the rest of the prefix. */
  lemma SpokenCountHead(items: seq<Item>, i: nat)
    requires 1 <= i <= |items|
    ensures SpokenCount(items[..i]) == SpokenCount(items[..1]) + SpokenCount(items[1..][..i - 1])
  {
    assert items[..i][1..] == items[1..][..i - 1];
  }

  /**
   * The words of the pronunciation items, in order, or `None` when one of
   * them cannot be read (an `IndexError`, which aborts the whole conversion).
   */
  function Words(items: seq<Item>): (r: Option<seq<Word>>)
    ensures r.None? <==> exists k :: 0 <= k < |items| && Unreadable(items[k])
    ensures r.Some? ==> |r.value| == SpokenCount(items)
  {
    if |items| == 0 then Some([])
    else
      var it := items[0];
      var rest := Words(items[1..]);
      assert forall k :: 1 <= k < |items| ==> items[k] == items[1..][k - 1];
      if it.kind != Pronunciation then rest
      else if |it.alternatives| == 0 then None
      else if rest.None? then None
      else Some([Word(it.startMs, it.endMs, it.alternatives[0])] + rest.value)
  }

  /** The word of a readable pronunciation item: its times and the content of its first alternative. */
  function WordOf(it: Item): Word
    requires |it.alternatives| > 0
  {
    Word(it.startMs, it.endMs, it.alternatives[0])
  }

  /**
   * When every item can be read, the j-th word is the word of the j-th
   * pronunciation item: nothing is reordered, dropped or altered.
   */
  lemma {:induction false} WordsOfSpoken(items: seq<Item>)
    requires Words(items).Some?
    ensures var ws := Words(items).value; var sp := Spoken(items);
      && |ws| == |sp|
      && forall j :: 0 <= j < |sp| ==> |sp[j].alternatives| > 0 && ws[j] == WordOf(sp[j])
  {
    if |items| > 0 {
      WordsOfSpoken(items[1..]);
      var it := items[0];
      if it.kind == Pronunciation {
        var ws := Words(items).value;
        var rest := Words(items[1..]).value;
        assert ws == [WordOf(it)] + rest;
        var sp := Spoken(items);
        assert sp == [it] + Spoken(items[1..]);
        WordsCons(ws, sp, rest, Spoken(items[1..]));
      }
    }
  }

  lemma WordsCons(ws: seq<Word>, sp: seq<Item>, rest: seq<Word>, sp': seq<Item>)
    requires |sp| > 0 && |sp[0].alternatives| > 0
    requires ws == [WordOf(sp[0])] + rest && sp == [sp[0]] + sp'
    requires |rest| == |sp'| && forall j :: 0 <= j < |sp'| ==> |sp'[j].alternatives| > 0 && rest[j] == WordOf(sp'[j])
    ensures |ws| == |sp| && forall j :: 0 <= j < |sp| ==> |sp[j].alternatives| > 0 && ws[j] == WordOf(sp[j])
  {
    forall j | 1 <= j < |sp| ensures |sp[j].alternatives| > 0 && ws[j] == WordOf(sp[j]) {
      assert sp[j] == sp'[j - 1] && ws[j] == rest[j - 1];
    }
  }

  /** The loop of `_group_transcript_items`, over the remaining words, the finished segments and the open one. */
  function Fold(ws: seq<Word>, done: seq<Group>, open: Option<Group>): seq<Group>
    decreases |ws|
  {
    if |ws| == 0 then (if open.Some? then done + [open.value] else done)
    else
      var w := ws[0];
      match open
      case None => Fold(ws[1..], done, Some(Group(w.startMs, w.endMs, w.content)))
      case Some(g) =>
        if w.startMs - g.endMs < GapThresholdMs then
          Fold(ws[1..], done, Some(Group(g.startMs, w.endMs, g.text + " " + w.content)))
        else
          Fold(ws[1..], done + [g], Some(Group(w.startMs, w.endMs, w.content)))
  }

  /** The segment texts. */
  function GroupTexts(gs: seq<Group>): (r: seq<string>)
    ensures |r| == |gs| && forall i :: 0 <= i < |gs| ==> r[i] == gs[i].text
  {
    seq(|gs|, i requires 0 <= i < |gs| => gs[i].text)
  }

  /** The word contents. */
  function Contents(ws: seq<Word>): (r: seq<string>)
    ensures |r| == |ws| && forall i :: 0 <= i < |ws| ==> r[i] == ws[i].content
  {
    seq(|ws|, i requires 0 <= i < |ws| => ws[i].content)
  }

  /** Reference count: the adjacent word pairs separated by at least the threshold. */
  function CountBreaks(ws: seq<Word>): nat
  {
    if |ws| < 2 then 0
    else (if ws[1].startMs - ws[0].endMs >= GapThresholdMs then 1 else 0) + CountBreaks(ws[1..])
  }

  /** Consecutive segments are at least the threshold apart. */
  ghost predicate Separated(gs: seq<Group>)
  {
    forall k :: 0 <= k < |gs| - 1 ==> gs[k + 1].startMs - gs[k].endMs >= GapThresholdMs
  }

  /**
   * `_group_transcript_items` on the words: no words, no segments; otherwise
   * one segment more than there are breaks, the first starting with the first
   * word and the last ending with the last word, consecutive segments at least
   * the threshold apart, and the segment texts, joined by spaces, giving the
   * words joined by spaces.
   */
  function GroupWords(ws: seq<Word>): (r: seq<Group>)
    ensures |r| == 0 <==> |ws| == 0
    ensures |ws| > 0 ==> |r| == 1 + CountBreaks(ws)
    ensures |ws| > 0 ==> r[0].startMs == ws[0].startMs && r[|r| - 1].endMs == ws[|ws| - 1].endMs
    ensures Separated(r)
    ensures Join(" ", GroupTexts(r)) == Join(" ", Contents(ws))
  {
    if |ws| == 0 then []
    else
      FoldFromFirst(ws);
      Fold(ws[1..], [], Some(Group(ws[0].startMs, ws[0].endMs, ws[0].content)))
  }

  /** The loop started on the first word: the facts `GroupWords` promises. */
  lemma FoldFromFirst(ws: seq<Word>)
    requires |ws| > 0
    ensures var r := Fold(ws[1..], [], Some(Group(ws[0].startMs, ws[0].endMs, ws[0].content)));
      && |r| == 1 + CountBreaks(ws)
      && r[0].startMs == ws[0].startMs && r[|r| - 1].endMs == ws[|ws| - 1].endMs
      && Separated(r)
      && Join(" ", GroupTexts(r)) == Join(" ", Contents(ws))
  {
    var g := Group(ws[0].startMs, ws[0].endMs, ws[0].content);
    var r := Fold(ws[1..], [], Some(g));
    assert |r| == 1 + CountBreaks(ws) by {
      FoldCount(ws[1..], [], g);
      assert [Word(g.startMs, g.endMs, g.text)] + ws[1..] == ws;
    }
    assert r[0].startMs == ws[0].startMs && r[|r| - 1].endMs == ws[|ws| - 1].endMs by {
      FoldEnds(ws[1..], [], g);
    }
    assert Separated(r) by {
      FoldSeparated(ws[1..], [], g);
    }
    assert Join(" ", GroupTexts(r)) == Join(" ", Contents(ws)) by {
      FoldText(ws[1..], [], g);
      assert [] + [g.text] + Contents(ws[1..]) == Contents(ws);
    }
  }

  // ---------------------------------------------------------------------------
  // Reference grouping: the words cut at every gap of at least the threshold

  /** Each word of `run` starts less than the threshold after the previous one ended. */
  ghost predicate Connected(run: seq<Word>)
  {
    forall k :: 0 <= k < |run| - 1 ==> run[k + 1].startMs - run[k].endMs < GapThresholdMs
  }

  /** The words of the runs, in order. */
  function Flatten(rs: seq<seq<Word>>): seq<Word>
  {
    if |rs| == 0 then [] else rs[0] + Flatten(rs[1..])
  }

  /** Neither run is empty, and `b` starts at least the threshold after `a` ended. */
  predicate Apart(a: seq<Word>, b: seq<Word>)
  {
    |a| > 0 && |b| > 0 && b[0].startMs - a[|a| - 1].endMs >= GapThresholdMs
  }

  /**
   * `rs` cuts `ws` at its gaps: together the runs are `ws` in order, each
   * run is non-empty and connected, and neighbouring runs are apart.
   */
  ghost predicate RunsOf(ws: seq<Word>, rs: seq<seq<Word>>)
  {
    && Flatten(rs) == ws
    && (forall k :: 0 <= k < |rs| ==> |rs[k]| > 0 && Connected(rs[k]))
    && (forall k :: 0 <= k < |rs| - 1 ==> Apart(rs[k], rs[k + 1]))
  }

  /** The cut of `ws` at every neighbour gap of at least the threshold. */
  function Runs(ws: seq<Word>): (rs: seq<seq<Word>>)
    ensures RunsOf(ws, rs)
  {
    if |ws| == 0 then []
    else
      assert ws == [ws[0]] + ws[1..];
      RunsFromCut([ws[0]], ws[1..]);
      RunsFrom([ws[0]], ws[1..])
  }

  /** The runs of `cur + ws`, where `cur` is the run still open. */
  function RunsFrom(cur: seq<Word>, ws: seq<Word>): (rs: seq<seq<Word>>)
    requires |cur| > 0
    ensures |rs| > 0 && |rs[0]| >= |cur| && rs[0][..|cur|] == cur
    ensures forall k :: 0 <= k < |rs| ==> |rs[k]| > 0
    decreases |ws|
  {
    if |ws| == 0 then [cur]
    else if ws[0].startMs - cur[|cur| - 1].endMs < GapThresholdMs then
      var rs := RunsFrom(cur + [ws[0]], ws[1..]);
      assert rs[0][..|cur|] == rs[0][..|cur| + 1][..|cur|];
      rs
    else
      var rest := RunsFrom([ws[0]], ws[1..]);
      assert forall k :: 1 <= k < |[cur] + rest| ==> ([cur] + rest)[k] == rest[k - 1];
      [cur] + rest
  }

  /** Continuing a connected open run gives a cut of the words. */
  lemma {:induction false} RunsFromCut(cur: seq<Word>, ws: seq<Word>)
    requires |cur| > 0 && Connected(cur)
    ensures RunsOf(cur + ws, RunsFrom(cur, ws))
    decreases |ws|
  {
    if |ws| == 0 {
      assert Flatten([cur]) == cur + Flatten([]);
      assert cur + ws == cur;
    } else if ws[0].startMs - cur[|cur| - 1].endMs < GapThresholdMs {
      RunsJoinStep(cur, ws);
      RunsFromCut(cur + [ws[0]], ws[1..]);
      assert cur + [ws[0]] + ws[1..] == cur + ws;
    } else {
      var rest := RunsFrom([ws[0]], ws[1..]);
      RunsFromCut([ws[0]], ws[1..]);
      assert [ws[0]] + ws[1..] == ws;
      RunsBreakStep(cur, ws);
      RunsCons(cur, ws, rest);
    }
  }

  /**
   * The cut is determined by the words: any cut meeting `RunsOf` is `Runs`,
   * so `Runs` can be read as its description alone.
   */
  lemma {:induction false} RunsUnique(ws: seq<Word>, rs: seq<seq<Word>>)
    requires RunsOf(ws, rs)
    ensures rs == Runs(ws)
  {
    if |ws| == 0 {
      if |rs| > 0 {
        FlattenHead(rs);
      }
    } else {
      FlattenHead(rs);
      assert rs[0][..1] == [ws[0]];
      assert [ws[0]] + ws[1..] == ws;
      RunsFromUnique([ws[0]], ws[1..], rs);
    }
  }

  /** The cut continuing an open run `cur` is determined by the words. */
  lemma {:induction false} RunsFromUnique(cur: seq<Word>, ws: seq<Word>, rs: seq<seq<Word>>)
    requires |cur| > 0 && RunsOf(cur + ws, rs)
    requires |rs| > 0 && |rs[0]| >= |cur| && rs[0][..|cur|] == cur
    ensures rs == RunsFrom(cur, ws)
    decreases |ws|
  {
    if |rs[0]| > |cur| {
      ExtendOpen(cur, ws, rs);
      RunsJoin(cur, ws);
      assert cur + [ws[0]] + ws[1..] == cur + ws;
      RunsFromUnique(cur + [ws[0]], ws[1..], rs);
    } else {
      assert rs[0] == cur;
      if |ws| == 0 {
        OnlyRun(cur, rs);
      } else {
        CloseOpen(cur, ws, rs);
        RunsBreakStep(cur, ws);
        assert [ws[0]] + ws[1..] == ws;
        assert rs[1..][0][..1] == [ws[0]];
        RunsFromUnique([ws[0]], ws[1..], rs[1..]);
        assert rs == [cur] + rs[1..];
      }
    }
  }

  lemma FlattenHead(rs: seq<seq<Word>>)
    requires |rs| > 0
    ensures Flatten(rs) == rs[0] + Flatten(rs[1..])
  {
  }

  lemma RunsOfTail(ws: seq<Word>, rs: seq<seq<Word>>)
    requires RunsOf(ws, rs) && |rs| > 0
    ensures ws == rs[0] + Flatten(rs[1..])
    ensures RunsOf(Flatten(rs[1..]), rs[1..])
  {
    var t := rs[1..];
    assert forall k :: 0 <= k < |t| ==> t[k] == rs[k + 1];
  }

  /** A first run longer than the open one holds the next word, so that word was less than the threshold away. */
  lemma ExtendOpen(cur: seq<Word>, ws: seq<Word>, rs: seq<seq<Word>>)
    requires |cur| > 0 && RunsOf(cur + ws, rs)
    requires |rs| > 0 && |rs[0]| > |cur| && rs[0][..|cur|] == cur
    ensures |ws| > 0 && ws[0].startMs - cur[|cur| - 1].endMs < GapThresholdMs
    ensures rs[0][..|cur| + 1] == cur + [ws[0]]
  {
    var r0 := rs[0];
    FlattenHead(rs);
    assert cur + ws == r0 + Flatten(rs[1..]);
    assert (cur + ws)[|cur|] == r0[|cur|];
    assert r0[|cur| - 1] == cur[|cur| - 1];
    assert Connected(r0);
  }

  /** A first run equal to the open one is followed by a run starting with the next word, at least the threshold away. */
  lemma CloseOpen(cur: seq<Word>, ws: seq<Word>, rs: seq<seq<Word>>)
    requires |cur| > 0 && |ws| > 0 && RunsOf(cur + ws, rs)
    requires |rs| > 0 && rs[0] == cur
    ensures |rs| > 1 && |rs[1]| > 0 && rs[1][0] == ws[0]
    ensures ws[0].startMs - cur[|cur| - 1].endMs >= GapThresholdMs
    ensures RunsOf(ws, rs[1..])
  {
    RunsOfTail(cur + ws, rs);
    assert Flatten(rs[1..]) == ws by {
      assert (cur + ws)[|cur|..] == ws;
      assert (rs[0] + Flatten(rs[1..]))[|cur|..] == Flatten(rs[1..]);
    }
    FlattenHead(rs[1..]);
    assert Apart(rs[0], rs[1]);
  }

  /** Words that are all in the open run leave no other run. */
  lemma OnlyRun(cur: seq<Word>, rs: seq<seq<Word>>)
    requires |cur| > 0 && RunsOf(cur, rs)
    requires |rs| > 0 && rs[0] == cur
    ensures rs == [cur]
  {
    RunsOfTail(cur, rs);
    if |rs| > 1 {
      FlattenHead(rs[1..]);
      assert |Flatten(rs[1..])| > 0;
    }
  }

  lemma RunsCons(cur: seq<Word>, ws: seq<Word>, rest: seq<seq<Word>>)
    requires |cur| > 0 && Connected(cur) && |ws| > 0
    requires ws[0].startMs - cur[|cur| - 1].endMs >= GapThresholdMs
    requires |rest| > 0 && |rest[0]| > 0 && rest[0][0] == ws[0]
    requires RunsOf(ws, rest)
    ensures RunsOf(cur + ws, [cur] + rest)
  {
    var rs := [cur] + rest;
    assert rs[1..] == rest;
    assert Flatten(rs) == cur + Flatten(rest);
    forall k | 0 <= k < |rs| - 1 ensures Apart(rs[k], rs[k + 1]) {
      if k > 0 {
        assert rs[k] == rest[k - 1] && rs[k + 1] == rest[k];
      }
    }
  }

  /** The segment a run of words becomes: first start, last end, contents joined by spaces. */
  function GroupOf(run: seq<Word>): Group
    requires |run| > 0
  {
    Group(run[0].startMs, run[|run| - 1].endMs, Join(" ", Contents(run)))
  }

  /** The segments of the runs. */
  function Groups(rs: seq<seq<Word>>): (r: seq<Group>)
    requires forall k :: 0 <= k < |rs| ==> |rs[k]| > 0
    ensures |r| == |rs| && forall i :: 0 <= i < |rs| ==> r[i] == GroupOf(rs[i])
  {
    seq(|rs|, i requires 0 <= i < |rs| => GroupOf(rs[i]))
  }

  /** A word added to an open run extends its end and its text. */
  lemma GroupOfSnoc(cur: seq<Word>, w: Word)
    requires |cur| > 0
    ensures var g := GroupOf(cur);
      GroupOf(cur + [w]) == Group(g.startMs, w.endMs, g.text + " " + w.content)
  {
    assert Contents(cur + [w]) == Contents(cur) + Contents([w]);
    assert Join(" ", Contents([w])) == w.content;
    JoinAppend(" ", Contents(cur), Contents([w]));
  }

  /** The grouping loop, run from an open run, yields the segments of the reference cut. */
  lemma {:induction false} FoldRuns(ws: seq<Word>, done: seq<Group>, cur: seq<Word>)
    requires |cur| > 0 && Connected(cur)
    ensures Fold(ws, done, Some(GroupOf(cur))) == done + Groups(RunsFrom(cur, ws))
    decreases |ws|
  {
    var g := GroupOf(cur);
    if |ws| == 0 {
      assert Groups([cur]) == [g];
    } else {
      var w := ws[0];
      if w.startMs - g.endMs < GapThresholdMs {
        GroupOfSnoc(cur, w);
        FoldRuns(ws[1..], done, cur + [w]);
        FoldJoin(ws, done, g, GroupOf(cur + [w]));
        RunsJoinStep(cur, ws);
      } else {
        FoldRuns(ws[1..], done + [g], [w]);
        FoldBreakRun(ws, done, cur);
        GroupsBreakRun(ws, done, cur);
      }
    }
  }

  lemma RunsJoinStep(cur: seq<Word>, ws: seq<Word>)
    requires |cur| > 0 && Connected(cur) && |ws| > 0
    requires ws[0].startMs - cur[|cur| - 1].endMs < GapThresholdMs
    ensures Connected(cur + [ws[0]])
    ensures RunsFrom(cur, ws) == RunsFrom(cur + [ws[0]], ws[1..])
  {
    ConnectedSnoc(cur, ws[0]);
    RunsJoin(cur, ws);
  }

  lemma ConnectedSnoc(cur: seq<Word>, w: Word)
    requires |cur| > 0 && Connected(cur)
    requires w.startMs - cur[|cur| - 1].endMs < GapThresholdMs
    ensures Connected(cur + [w])
  {
  }

  lemma RunsJoin(cur: seq<Word>, ws: seq<Word>)
    requires |cur| > 0 && |ws| > 0
    requires ws[0].startMs - cur[|cur| - 1].endMs < GapThresholdMs
    ensures RunsFrom(cur, ws) == RunsFrom(cur + [ws[0]], ws[1..])
  {
  }

  /** After a break the loop closes the open segment and opens one for the new word. */
  lemma FoldBreakRun(ws: seq<Word>, done: seq<Group>, cur: seq<Word>)
    requires |cur| > 0 && |ws| > 0
    requires ws[0].startMs - cur[|cur| - 1].endMs >= GapThresholdMs
    ensures Fold(ws, done, Some(GroupOf(cur))) == Fold(ws[1..], done + [GroupOf(cur)], Some(GroupOf([ws[0]])))
  {
    WordGroup(ws[0]);
    FoldBreak(ws, done, GroupOf(cur), GroupOf([ws[0]]));
  }

  /** After a break the reference cut closes the open run and starts one with the new word. */
  lemma GroupsBreakRun(ws: seq<Word>, done: seq<Group>, cur: seq<Word>)
    requires |cur| > 0 && |ws| > 0
    requires ws[0].startMs - cur[|cur| - 1].endMs >= GapThresholdMs
    ensures done + Groups(RunsFrom(cur, ws)) == done + [GroupOf(cur)] + Groups(RunsFrom([ws[0]], ws[1..]))
  {
    var rest := RunsFrom([ws[0]], ws[1..]);
    RunsBreakStep(cur, ws);
    GroupsCons(cur, rest);
  }

  lemma WordGroup(w: Word)
    ensures Group(w.startMs, w.endMs, w.content) == GroupOf([w])
  {
  }

  lemma RunsBreakStep(cur: seq<Word>, ws: seq<Word>)
    requires |cur| > 0 && |ws| > 0
    requires ws[0].startMs - cur[|cur| - 1].endMs >= GapThresholdMs
    ensures RunsFrom(cur, ws) == [cur] + RunsFrom([ws[0]], ws[1..])
  {
  }

  lemma GroupsCons(cur: seq<Word>, rest: seq<seq<Word>>)
    requires |cur| > 0 && forall k :: 0 <= k < |rest| ==> |rest[k]| > 0
    ensures forall k :: 0 <= k < |[cur] + rest| ==> |([cur] + rest)[k]| > 0
    ensures Groups([cur] + rest) == [GroupOf(cur)] + Groups(rest)
  {
    assert forall k :: 1 <= k < |[cur] + rest| ==> ([cur] + rest)[k] == rest[k - 1];
  }

  /**
   * `_group_transcript_items` makes exactly one segment per run of the
   * reference cut, spanning that run's words and holding their contents
   * joined by spaces.
   */
  lemma {:induction false} GroupWordsRuns(ws: seq<Word>)
    ensures var r := GroupWords(ws); var rs := Runs(ws);
      |r| == |rs| && forall i :: 0 <= i < |r| ==> r[i] == GroupOf(rs[i])
  {
    if |ws| > 0 {
      var first := [ws[0]];
      assert GroupWords(ws) == Fold(ws[1..], [], Some(GroupOf(first))) by {
        WordGroup(ws[0]);
      }
      assert Runs(ws) == RunsFrom(first, ws[1..]);
      assert Fold(ws[1..], [], Some(GroupOf(first))) == Groups(RunsFrom(first, ws[1..])) by {
        FoldRuns(ws[1..], [], first);
        assert [] + Groups(RunsFrom(first, ws[1..])) == Groups(RunsFrom(first, ws[1..]));
      }
    }
  }

  /**
   * For any cut of the words at their gaps of at least the threshold, the
   * segments are, in order, the runs' first starts, last ends and contents
   * joined by spaces.
   */
  lemma {:induction false} GroupWordsCut(ws: seq<Word>, rs: seq<seq<Word>>)
    requires RunsOf(ws, rs)
    ensures GroupWords(ws) == Groups(rs)
  {
    RunsUnique(ws, rs);
    GroupWordsRuns(ws);
  }

  /** Three words with gaps of 50 ms and 1300 ms give "hi there" and "bye". */
  lemma GroupWordsExample()
    ensures GroupWords([Word(0, 300, "hi"), Word(350, 700, "there"), Word(2000, 2300, "bye")])
      == [Group(0, 700, "hi there"), Group(2000, 2300, "bye")]
  {
    var bye := [Word(2000, 2300, "bye")];
    var ws := [Word(0, 300, "hi"), Word(350, 700, "there")] + bye;
    assert ws[1..] == [Word(350, 700, "there")] + bye;
    assert ws[1..][1..] == bye && bye[1..] == [];
    assert "hi" + " " + "there" == "hi there";
    calc {
      GroupWords(ws);
      Fold(ws[1..], [], Some(Group(0, 300, "hi")));
      Fold(bye, [], Some(Group(0, 700, "hi there")));
      Fold([], [Group(0, 700, "hi there")], Some(Group(2000, 2300, "bye")));
    }
  }

  lemma {:induction false} CountBreaksHead(a: Word, b: Word, t: seq<Word>)
    requires a.endMs == b.endMs
    ensures CountBreaks([a] + t) == CountBreaks([b] + t)
  {
    assert ([a] + t)[1..] == t == ([b] + t)[1..];
  }

  lemma {:induction false} FoldCount(ws: seq<Word>, done: seq<Group>, g: Group)
    ensures |Fold(ws, done, Some(g))| == |done| + 1 + CountBreaks([Word(g.startMs, g.endMs, g.text)] + ws)
    decreases |ws|
  {
    var head := Word(g.startMs, g.endMs, g.text);
    if |ws| > 0 {
      var w := ws[0];
      assert ([head] + ws)[1..] == ws;
      if w.startMs - g.endMs < GapThresholdMs {
        var g' := Group(g.startMs, w.endMs, g.text + " " + w.content);
        FoldCount(ws[1..], done, g');
        assert ws == [w] + ws[1..];
        CountBreaksHead(Word(g'.startMs, g'.endMs, g'.text), w, ws[1..]);
      } else {
        var g' := Group(w.startMs, w.endMs, w.content);
        FoldCount(ws[1..], done + [g], g');
        assert ws == [Word(g'.startMs, g'.endMs, g'.text)] + ws[1..];
      }
    }
  }

  lemma {:induction false} FoldEnds(ws: seq<Word>, done: seq<Group>, g: Group)
    ensures var r := Fold(ws, done, Some(g));
      && |r| > |done|
      && r[..|done|] == done
      && r[|done|].startMs == g.startMs
      && r[|r| - 1].endMs == (if |ws| == 0 then g.endMs else ws[|ws| - 1].endMs)
    decreases |ws|
  {
    if |ws| > 0 {
      var w := ws[0];
      if w.startMs - g.endMs < GapThresholdMs {
        FoldEnds(ws[1..], done, Group(g.startMs, w.endMs, g.text + " " + w.content));
      } else {
        var r := Fold(ws[1..], done + [g], Some(Group(w.startMs, w.endMs, w.content)));
        FoldEnds(ws[1..], done + [g], Group(w.startMs, w.endMs, w.content));
        assert r[..|done|] == r[..|done| + 1][..|done|];
        assert r[|done|] == r[..|done| + 1][|done|];
      }
    }
  }

  lemma {:induction false} FoldSeparated(ws: seq<Word>, done: seq<Group>, g: Group)
    requires Separated(done)
    requires |done| > 0 ==> g.startMs - done[|done| - 1].endMs >= GapThresholdMs
    ensures Separated(Fold(ws, done, Some(g)))
    decreases |ws|
  {
    if |ws| > 0 {
      var w := ws[0];
      if w.startMs - g.endMs < GapThresholdMs {
        FoldSeparated(ws[1..], done, Group(g.startMs, w.endMs, g.text + " " + w.content));
      } else {
        FoldSeparated(ws[1..], done + [g], Group(w.startMs, w.endMs, w.content));
      }
    }
  }

  /** Joining two neighbours with the separator before joining the list changes nothing. */
  lemma {:induction false} JoinMergeNeighbours(sep: string, pre: seq<string>, a: string, b: string, post: seq<string>)
    ensures Join(sep, pre + [a + sep + b] + post) == Join(sep, pre + [a, b] + post)
  {
    JoinMergeFirst(sep, a, b, post);
    JoinPrefix(sep, pre, [a + sep + b] + post, [a, b] + post);
    assert pre + [a + sep + b] + post == pre + ([a + sep + b] + post);
    assert pre + [a, b] + post == pre + ([a, b] + post);
  }

  lemma JoinMergeFirst(sep: string, a: string, b: string, post: seq<string>)
    ensures Join(sep, [a + sep + b] + post) == Join(sep, [a, b] + post)
  {
    assert Join(sep, [a, b]) == a + sep + b by {
      assert [a, b][1..] == [b];
    }
    if |post| > 0 {
      JoinAppend(sep, [a + sep + b], post);
      JoinAppend(sep, [a, b], post);
    } else {
      assert [a + sep + b] + post == [a + sep + b];
      assert [a, b] + post == [a, b];
    }
  }

  /** Lists with equal joins keep equal joins behind a common prefix. */
  lemma JoinPrefix(sep: string, pre: seq<string>, m: seq<string>, m': seq<string>)
    requires |m| > 0 && |m'| > 0 && Join(sep, m) == Join(sep, m')
    ensures Join(sep, pre + m) == Join(sep, pre + m')
  {
    if |pre| > 0 {
      JoinAppend(sep, pre, m);
      JoinAppend(sep, pre, m');
    } else {
      assert pre + m == m && pre + m' == m';
    }
  }

  lemma {:induction false} FoldText(ws: seq<Word>, done: seq<Group>, g: Group)
    ensures Join(" ", GroupTexts(Fold(ws, done, Some(g)))) == Join(" ", GroupTexts(done) + [g.text] + Contents(ws))
    decreases |ws|
  {
    if |ws| == 0 {
      assert Fold(ws, done, Some(g)) == done + [g];
      TextsSnoc(done, g);
      assert Contents(ws) == [];
      assert GroupTexts(done) + [g.text] + Contents(ws) == GroupTexts(done) + [g.text];
    } else {
      var w := ws[0];
      if w.startMs - g.endMs < GapThresholdMs {
        var g' := Group(g.startMs, w.endMs, g.text + " " + w.content);
        FoldText(ws[1..], done, g');
        JoinStep(ws, done, g, g');
      } else {
        var g' := Group(w.startMs, w.endMs, w.content);
        FoldText(ws[1..], done + [g], g');
        BreakStep(ws, done, g, g');
      }
    }
  }

  lemma JoinStep(ws: seq<Word>, done: seq<Group>, g: Group, g': Group)
    requires |ws| > 0 && ws[0].startMs - g.endMs < GapThresholdMs
    requires g' == Group(g.startMs, ws[0].endMs, g.text + " " + ws[0].content)
    requires Join(" ", GroupTexts(Fold(ws[1..], done, Some(g')))) == Join(" ", GroupTexts(done) + [g'.text] + Contents(ws[1..]))
    ensures Join(" ", GroupTexts(Fold(ws, done, Some(g)))) == Join(" ", GroupTexts(done) + [g.text] + Contents(ws))
  {
    FoldJoin(ws, done, g, g');
    JoinMergeNeighbours(" ", GroupTexts(done), g.text, ws[0].content, Contents(ws[1..]));
    JoinTexts(ws, done, g);
  }

  lemma FoldJoin(ws: seq<Word>, done: seq<Group>, g: Group, g': Group)
    requires |ws| > 0 && ws[0].startMs - g.endMs < GapThresholdMs
    requires g' == Group(g.startMs, ws[0].endMs, g.text + " " + ws[0].content)
    ensures Fold(ws, done, Some(g)) == Fold(ws[1..], done, Some(g'))
  {
  }

  lemma JoinTexts(ws: seq<Word>, done: seq<Group>, g: Group)
    requires |ws| > 0
    ensures GroupTexts(done) + [g.text, ws[0].content] + Contents(ws[1..]) == GroupTexts(done) + [g.text] + Contents(ws)
  {
    ContentsCons(ws);
  }

  lemma BreakStep(ws: seq<Word>, done: seq<Group>, g: Group, g': Group)
    requires |ws| > 0 && ws[0].startMs - g.endMs >= GapThresholdMs
    requires g' == Group(ws[0].startMs, ws[0].endMs, ws[0].content)
    requires Join(" ", GroupTexts(Fold(ws[1..], done + [g], Some(g')))) == Join(" ", GroupTexts(done + [g]) + [g'.text] + Contents(ws[1..]))
    ensures Join(" ", GroupTexts(Fold(ws, done, Some(g)))) == Join(" ", GroupTexts(done) + [g.text] + Contents(ws))
  {
    FoldBreak(ws, done, g, g');
    BreakTexts(ws, done, g, g'.text);
  }

  lemma FoldBreak(ws: seq<Word>, done: seq<Group>, g: Group, g': Group)
    requires |ws| > 0 && ws[0].startMs - g.endMs >= GapThresholdMs
    requires g' == Group(ws[0].startMs, ws[0].endMs, ws[0].content)
    ensures Fold(ws, done, Some(g)) == Fold(ws[1..], done + [g], Some(g'))
  {
  }

  lemma BreakTexts(ws: seq<Word>, done: seq<Group>, g: Group, t: string)
    requires |ws| > 0 && t == ws[0].content
    ensures GroupTexts(done + [g]) + [t] + Contents(ws[1..]) == GroupTexts(done) + [g.text] + Contents(ws)
  {
    ContentsCons(ws);
    TextsSnoc(done, g);
  }

  lemma TextsSnoc(done: seq<Group>, g: Group)
    ensures GroupTexts(done + [g]) == GroupTexts(done) + [g.text]
  {
  }

  lemma ContentsCons(ws: seq<Word>)
    requires |ws| > 0
    ensures Contents(ws) == [ws[0].content] + Contents(ws[1..])
  {
  }

  /**
   * `aws_result_to_srt`: no segments when an item cannot be read; otherwise
   * one subtitle per segment, numbered from 1, with its text, and its start
   * and end wrapped to the time of day.
   */
  function ToSrt(items: seq<Item>): (r: seq<Segment>)
    ensures Words(items).None? ==> r == []
    ensures Words(items).Some? ==> var gs := GroupWords(Words(items).value);
      && |r| == |gs|
      && forall i :: 0 <= i < |r| ==>
           r[i] == Segment(i + 1, gs[i].startMs % DayMs, gs[i].endMs % DayMs, gs[i].text)
  {
    match Words(items)
    case None => []
    case Some(ws) =>
      var gs := GroupWords(ws);
      seq(|gs|, i requires 0 <= i < |gs| =>
        Segment(i + 1, SecondsToTime(gs[i].startMs), SecondsToTime(gs[i].endMs), gs[i].text))
  }

  /**
   * `_seconds_to_subrip_time` on a time given in whole milliseconds: the time
   * of day, since the `timedelta` it goes through drops whole days.
   */
  function SecondsToTime(ms: int): (t: int)
    ensures 0 <= t < DayMs && t == ms % DayMs
  {
    var t := FromMicros(ms * 1000);
    assert (ms * 1000 % DayUs) / 1000 == ms % DayMs by {
      var q := ms / DayMs;
      assert ms * 1000 == q * DayUs + (ms % DayMs) * 1000;
      ModUnique(ms * 1000, DayUs, q, (ms % DayMs) * 1000);
    }
    t
  }

  // ---------------------------------------------------------------------------
  // Laws

  /** Without pronunciations the result is empty, and so it is without items at all. */
  lemma {:induction false} NoSpeechNoSubtitles(items: seq<Item>)
    requires forall k :: 0 <= k < |items| ==> items[k].kind != Pronunciation
    ensures ToSrt(items) == []
  {
    assert Words(items).Some?;
    NoSpeechNoWords(items);
  }

  lemma {:induction false} NoSpeechNoWords(items: seq<Item>)
    requires forall k :: 0 <= k < |items| ==> items[k].kind != Pronunciation
    ensures SpokenCount(items) == 0
  {
    if |items| > 0 {
      NoSpeechNoWords(items[1..]);
    }
  }

  /** The subtitle texts, joined by spaces, are the spoken words joined by spaces. */
  lemma {:induction false} SrtKeepsEveryWord(items: seq<Item>)
    requires Words(items).Some?
    ensures var r := ToSrt(items);
      Join(" ", seq(|r|, i requires 0 <= i < |r| => r[i].text)) == Join(" ", Contents(Words(items).value))
  {
    var r := ToSrt(items);
    var gs := GroupWords(Words(items).value);
    assert seq(|r|, i requires 0 <= i < |r| => r[i].text) == GroupTexts(gs);
  }

  /** The subtitles are numbered 1 to N and all their times lie within one day. */
  lemma {:induction false} SrtNumberedWithinDay(items: seq<Item>)
    ensures var r := ToSrt(items);
      forall i :: 0 <= i < |r| ==>
        r[i].index == i + 1 && 0 <= r[i].startMs < DayMs && 0 <= r[i].endMs < DayMs
  {
  }

  /** Words half a second apart or more never share a subtitle, so the count is the number of breaks plus one. */
  lemma {:induction false} SrtCount(items: seq<Item>)
    requires Words(items).Some? && SpokenCount(items) > 0
    ensures |ToSrt(items)| == 1 + CountBreaks(Words(items).value)
  {
  }
}
