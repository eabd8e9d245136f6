# Subtitle timeline of autodub-pro, modelled in Dafny

autodub-pro dubs videos. It transcribes the speech with AWS Transcribe, edits the
resulting subtitles, translates them and synthesises new audio. This project
models the part that decides *when* each subtitle is shown and *what* it says:

- `SubtitleProcessor` (`autodub_pro/core/subtitle.py`) turns a transcription into
  numbered subtitles. It also crops, merges, splits and retimes subtitles,
  measures their duration and formats timestamps.
- The pure logic of `SubtitleEditorWidget` (`autodub_pro/ui/subtitle_editor.py`).
  It renumbers rows, adds and deletes rows, merges consecutive rows, splits a row
  at the text cursor, finds the row under the playback position, and formats and
  parses timestamps.
- Two utilities from `autodub_pro/utils/helpers.py`: `parse_time` and `create_unique_filename`.

A subtitle time is a pysrt `SubRipTime` held as its ordinal, an integer number of
milliseconds. Positions that the source receives as float seconds are given in
whole microseconds, because `timedelta` keeps microseconds and the conversion to
`SubRipTime` truncates them to milliseconds. Transcription times are in milliseconds.

The modules follow the source:

| file | module | what it holds |
|---|---|---|
| `wrappers.dfy` | `Wrappers` | `Option` and `Result` |
| `pytext.dfy` | `PyText` | the `str` operations the code uses: `strip`, `split`, `count`, `replace`, `join`, `ljust` |
| `pynumber.dfy` | `PyNumber` | `int()` and decimal `float()` on text, `str(n)`, `f"{n:0Wd}"` |
| `sorting.dfy` | `Sorting` | `sorted()` on a list of integers |
| `timestamp.dfy` | `Timestamp` | `SubRipTime` fields, the `HH:MM:SS.mmm` format and its parser, seconds to `SubRipTime` |
| `subtitle.dfy` | `Subtitle` | a subtitle, and crop, merge, split, set timing and duration |
| `transcript.dfy` | `Transcript` | AWS transcript items, grouping into segments, `aws_result_to_srt` |
| `editor.dfy` | `SubtitleEditor` | the editor state and its actions |
| `helpers.dfy` | `Helpers` | `parse_time`, `create_unique_filename` |

The editor state is the subtitle list together with the selected row. The
selected row is `-1` when nothing is selected. An action either changes the
state, or is refused with the reason the warning dialog gives, or raises an
exception. PySide6 reports an exception raised in a slot and carries on, so a
raised action leaves the state as it was.

## Model

Definitions without a contract of their own are described by the rows of the
lemmas about them:

- `Timestamp.Parse`, the editor's `parse_timestamp` (subtitle_editor.py:624-650): Timestamp.ParseFields, Timestamp.ParseFieldsFraction, Timestamp.ParseCommaIsDot, Timestamp.ParseNeedsTwoColons and Timestamp.FormatParses.
- `Helpers.ParseTime` and `Helpers.Clock`, `parse_time` (helpers.py:172-199): Helpers.ParseTimeHours, Helpers.ParseTimeMinutes, Helpers.ParseTimeSeconds, Helpers.ParseTimeTooManyColons and Helpers.ParseTimeOfFormat. Between them they cover every input: a text with two colons is `a:b:c` with colon-free parts, one with a single colon is `a:b`, and the rest have none or three or more.
- `PyNumber.ParseInt`, Python's `int()` on text: PyNumber.ParseDigits, PyNumber.ParseNegativeDigits, PyNumber.DecimalStringParses and PyNumber.PadInt.
- `PyNumber.ParseDecimal`, Python's `float()` on text: Helpers.DecimalOfDigits and Helpers.DecimalRejectsColon.
- `Transcript.Fold`, the loop of `_group_transcript_items` (core/subtitle.py:110-145): Transcript.FoldCount, Transcript.FoldSeparated, Transcript.FoldText and Transcript.GroupWordsRuns.
- `SubtitleEditor.PlanSplit` and `SubtitleEditor.ApplyCut`, the checks and the cut of `split_subtitle` (subtitle_editor.py:436-497): SubtitleEditor.PlanSplitAllowed, SubtitleEditor.SplitRefusals, SubtitleEditor.SplitAtCursor and SubtitleEditor.SplitAtCursorAsWritten.

| member | source | states |
|---|---|---|
| PyText.Strip | autodub_pro/ui/subtitle_editor.py:459-460 | `strip()` removes only whitespace, and only from the two ends; the result neither starts nor ends with whitespace; it is empty exactly when the input is all whitespace |
| PyText.StripUnchanged | autodub_pro/ui/subtitle_editor.py:459-460 | text with no whitespace at either end is left unchanged by `strip()` |
| PyText.Count | autodub_pro/utils/helpers.py:184 | `count(c)` is zero exactly when `c` does not occur |
| PyText.Split | autodub_pro/ui/subtitle_editor.py:633 | `split(c)` gives one more part than there are separators, and no part contains the separator |
| PyText.SplitNoSeparator | autodub_pro/ui/subtitle_editor.py:641 | text without the separator splits into itself alone |
| PyText.SplitAtSeparator | autodub_pro/ui/subtitle_editor.py:633 | splitting `a + c + b`, where `a` has no `c`, gives `a` followed by the parts of `b` |
| PyText.JoinSplit | autodub_pro/utils/helpers.py:185 | joining the parts of `split(c)` with `c` gives back the original text |
| PyText.JoinAppend | autodub_pro/core/subtitle.py:220 | `sep.join(xs + ys)` is `sep.join(xs) + sep + sep.join(ys)` when both lists are non-empty |
| PyText.ReplaceAt | autodub_pro/ui/subtitle_editor.py:633 | `replace(a, b)` changes exactly the characters equal to `a`, each into `b`, and keeps every other character in place |
| PyText.ReplaceAbsent | autodub_pro/ui/subtitle_editor.py:633 | text that does not contain `a` is returned unchanged by `replace(a, b)` |
| Timestamp.ReplaceConcat | autodub_pro/ui/subtitle_editor.py:633 | replacing commas by dots distributes over concatenation, so it can be applied field by field |
| PyText.LJustCut3 | autodub_pro/ui/subtitle_editor.py:647 | `ljust(3, '0')[:3]` has exactly three characters: the first three of the input, padded with `'0'` |
| PyNumber.DecimalString | autodub_pro/core/subtitle.py:295 | `str(n)` is all digits with no leading zero, and the digits spell `n` |
| PyNumber.PadInt | autodub_pro/core/subtitle.py:295 | `f"{n:0Wd}"` reads back through `int()` as `n`; it is all digits when `n >= 0`; it is exactly `W` characters when `n` has at most `W` digits |
| PyNumber.ParseDigits | autodub_pro/ui/subtitle_editor.py:638-642 | `int()` of a string of ASCII digits is the number they spell |
| PyNumber.ParseNegativeDigits | autodub_pro/ui/subtitle_editor.py:638-642 | `int()` of a minus sign followed by digits is the negated number |
| PyNumber.DecimalStringParses | autodub_pro/utils/helpers.py:234 | `int(str(n)) == n` |
| PyNumber.ShiftIsProduct | autodub_pro/utils/helpers.py:186 | shifting a number by `k` decimal places multiplies it by `10^k` |
| Sorting.Sort | autodub_pro/ui/subtitle_editor.py:391 | `sorted()` returns an ascending permutation of its input |
| Sorting.SortedPermutationUnique | autodub_pro/core/subtitle.py:209 | there is only one ascending permutation of a list, so `sorted()` is determined by the multiset of its input |
| Sorting.SortDistinct | autodub_pro/ui/subtitle_editor.py:391 | sorting distinct rows gives a strictly increasing list |
| Timestamp.PartsOfTime | autodub_pro/ui/subtitle_editor.py:594-601 | the minutes, seconds and milliseconds fields of a time are in range, and together with the hours they rebuild the time |
| Timestamp.Format | autodub_pro/ui/subtitle_editor.py:611-621 | the display format reads back through `parse_timestamp` as the same time; below 100 hours it is exactly `HH:MM:SS.mmm` with digits in the digit places |
| Timestamp.FormatParses | autodub_pro/core/subtitle.py:285-295 | `parse_timestamp(format_timestamp(t)) == t` for every time, negative and over 100 hours included |
| Timestamp.FormatShape | autodub_pro/core/subtitle.py:295 | below 100 hours the format has 12 characters, colons at 2 and 5, a dot at 8 and digits elsewhere |
| Timestamp.ParseFields | autodub_pro/ui/subtitle_editor.py:633-650 | three integer fields without a fraction parse as hours, minutes and seconds with zero milliseconds |
| Timestamp.ParseFieldsFraction | autodub_pro/ui/subtitle_editor.py:633-650 | with a fraction after `.` or `,`, the milliseconds are the fraction padded or cut to three digits, and an unreadable fraction is an error |
| Timestamp.ParseCommaIsDot | autodub_pro/ui/subtitle_editor.py:633 | a comma in the text is read exactly as a dot |
| Timestamp.ParseNeedsTwoColons | autodub_pro/ui/subtitle_editor.py:633-636 | text without exactly two colons is rejected as a wrong field count |
| Timestamp.FromMicros | autodub_pro/core/subtitle.py:149-166 | seconds become the time of day they fall on: whole days are dropped and microseconds are truncated to milliseconds, so the result is in `[0, 24 h)` |
| Subtitle.Duration | autodub_pro/core/subtitle.py:273-283 | start plus duration is the end; the duration is negative exactly when the subtitle ends before it starts |
| Subtitle.Crop | autodub_pro/core/subtitle.py:168-192 | no position leaves the subtitle unchanged; otherwise only the chosen end moves, to the time of day of the position, and index and text are kept |
| Subtitle.SetTiming | autodub_pro/core/subtitle.py:251-271 | each given bound becomes the time of day of its position; an omitted bound, the index and the text are kept |
| Subtitle.SplitAt | autodub_pro/core/subtitle.py:224-249 | a position inside the subtitle, ends included, gives two parts meeting at it, both with the original index and text; a position outside gives the subtitle back with no second part |
| Subtitle.MergeSelection | autodub_pro/core/subtitle.py:194-222 | a merge happens exactly when at least two indices are given and one of them is in range; the merged subtitle keeps the first selected subtitle's index and start, takes the last one's end, and joins the selected texts in order with spaces; the removed list is the sorted indices without the least one |
| Subtitle.InRangeCount | autodub_pro/core/subtitle.py:212 | the filter keeps each in-range index as often as it was given and drops the rest |
| Subtitle.InRangeSorted | autodub_pro/core/subtitle.py:212 | filtering a sorted list keeps it sorted |
| Subtitle.CropIsSetTiming | autodub_pro/core/subtitle.py:168-192 | cropping at a position is setting only that bound |
| Subtitle.SetTimingMayInvert | autodub_pro/core/subtitle.py:251-271 | retiming does not check the order of the bounds: a start moved past the end gives a negative duration |
| Subtitle.SplitPartsMeet | autodub_pro/core/subtitle.py:224-249 | the two parts of a split meet at the split time, neither has negative duration, their durations sum to the original, and they span the original |
| Subtitle.MergeUndoesSplitTiming | autodub_pro/core/subtitle.py:194-249 | merging the two parts of a split gives back the original start, end and index |
| Transcript.Words | autodub_pro/core/subtitle.py:110-120 | punctuation is skipped; one word per pronunciation; a pronunciation with no alternatives makes the whole conversion fail |
| Transcript.Spoken | autodub_pro/core/subtitle.py:110-113 | the items the loop does not skip: exactly the pronunciations of the input, in their order — the pronunciation at position i is the element numbered by the pronunciations before it, so nothing is reordered, dropped or repeated |
| Transcript.WordsOfSpoken | autodub_pro/core/subtitle.py:110-120 | the j-th word has the start, the end and the first alternative's content of the j-th pronunciation item: nothing is reordered, dropped or altered |
| Transcript.Runs | autodub_pro/core/subtitle.py:129-141 | the reference cut of the words: the runs are the words in order, none is empty, inside a run each word starts less than 0.5 s after the previous one ended, and each run starts at least 0.5 s after the previous run ended |
| Transcript.RunsUnique | autodub_pro/core/subtitle.py:129-141 | any cut meeting that description is the reference cut, so the description alone fixes it |
| Transcript.GroupWordsRuns | autodub_pro/core/subtitle.py:110-145 | the grouping makes exactly one segment per run of the reference cut, from the run's first start to its last end, holding its words' contents joined with spaces |
| Transcript.GroupWordsCut | autodub_pro/core/subtitle.py:110-145 | for any cut of the words at their gaps of at least 0.5 s, the segments are those runs' segments, in order |
| Transcript.GroupWordsExample | autodub_pro/core/subtitle.py:129-141 | "hi" (0-300 ms), "there" (350-700 ms) and "bye" (2000-2300 ms) give "hi there" from 0 to 700 ms and "bye" from 2000 to 2300 ms |
| Transcript.GroupWords | autodub_pro/core/subtitle.py:97-147 | no words give no segments; otherwise there is one segment more than there are gaps of at least 0.5 s between neighbouring words; the first segment starts with the first word and the last ends with the last; segments are separated by at least 0.5 s; the segment texts joined with spaces are the words joined with spaces |
| Transcript.FoldCount | autodub_pro/core/subtitle.py:110-145 | the grouping loop closes one segment per gap of at least 0.5 s |
| Transcript.FoldSeparated | autodub_pro/core/subtitle.py:129-141 | the grouping loop keeps every pair of neighbouring segments at least 0.5 s apart |
| Transcript.FoldText | autodub_pro/core/subtitle.py:123-141 | the grouping loop neither loses nor reorders a word |
| Transcript.ToSrt | autodub_pro/core/subtitle.py:56-95 | a failed conversion gives no subtitles; otherwise subtitle `i` is numbered `i + 1` and carries segment `i`'s text and its times of day |
| Transcript.SecondsToTime | autodub_pro/core/subtitle.py:149-166 | a transcription time becomes its time of day |
| Transcript.NoSpeechNoSubtitles | autodub_pro/core/subtitle.py:110-113 | a transcript without pronunciations gives no subtitles |
| Transcript.SrtKeepsEveryWord | autodub_pro/core/subtitle.py:56-147 | the subtitle texts joined with spaces are exactly the spoken words joined with spaces |
| Transcript.SrtNumberedWithinDay | autodub_pro/core/subtitle.py:76-87 | subtitles are numbered 1, 2, 3, ... and every time lies within one day |
| Transcript.SrtCount | autodub_pro/core/subtitle.py:97-147 | the number of subtitles is one more than the number of gaps of at least 0.5 s |
| SubtitleEditor.Renumber | autodub_pro/ui/subtitle_editor.py:565-568 | after `update_indices` the rows are numbered 1, 2, 3, ... and their times and texts are unchanged |
| SubtitleEditor.RenumberUnique | autodub_pro/ui/subtitle_editor.py:565-568 | a list that is numbered in order and has the same cues as another list is that list renumbered |
| SubtitleEditor.RenumberIdempotent | autodub_pro/ui/subtitle_editor.py:565-568 | renumbering twice is renumbering once; a list already numbered in order is left alone |
| SubtitleEditor.Select | autodub_pro/ui/subtitle_editor.py:570-578 | selecting a row in range makes it current; any other row changes nothing |
| SubtitleEditor.Delete | autodub_pro/ui/subtitle_editor.py:345-380 | refused with no subtitles, with no selection, or without confirmation; otherwise the selected row is removed, the rest keep their order and cues, the list is renumbered and the selection moves to the next row, or to the last row when the deleted row was last |
| SubtitleEditor.RemoveDescending | autodub_pro/ui/subtitle_editor.py:421-423 | deleting rows `hi` down to `lo + 1` leaves the rows up to `lo` and from `hi + 1` on |
| SubtitleEditor.MergeRows | autodub_pro/ui/subtitle_editor.py:382-434 | refused with fewer than two rows; otherwise merged exactly when the selected rows form one block of neighbours, and refused as not consecutive when they do not; the merged row spans the block's first start to its last end, joins the texts with newlines, is selected, and all other rows keep their cues |
| SubtitleEditor.MergeBlock | autodub_pro/ui/subtitle_editor.py:399-432 | merging a consecutive block replaces it by one row with the block's outer times and newline-joined texts |
| SubtitleEditor.BlockIffConsecutive | autodub_pro/ui/subtitle_editor.py:390-397 | the sorted rows pass the consecutiveness check exactly when the selection is every row between its least and greatest |
| SubtitleEditor.ConsecutiveSteps | autodub_pro/ui/subtitle_editor.py:394-397 | a list that passes the check counts up by one from its first element |
| SubtitleEditor.BlockTexts | autodub_pro/ui/subtitle_editor.py:404-408 | the texts collected for a consecutive block are the texts of that slice of rows |
| SubtitleEditor.TruncDiv | autodub_pro/ui/subtitle_editor.py:468 | `int()` of a quotient truncates toward zero, for negative quotients too |
| SubtitleEditor.SplitTime | autodub_pro/ui/subtitle_editor.py:466-468 | the split time lies between start and end, whichever order they are in, at the share of the duration given by the cursor's share of the text, truncated toward the start |
| SubtitleEditor.PlanSplitAllowed | autodub_pro/ui/subtitle_editor.py:436-464 | the checks of `split_subtitle` pass exactly when a row is selected, the cursor is strictly inside the text, and neither side is blank |
| SubtitleEditor.SplitAtCursor | autodub_pro/ui/subtitle_editor.py:436-497 | the split happens exactly when the checks pass; the row is replaced by its stripped text before the cursor, ending at the split time (the start plus the cursor's share of the duration, truncated), and a new row with the stripped text after the cursor, from the split time to the original end; all other rows keep their cues, the list is renumbered and the first part stays selected |
| SubtitleEditor.SplitRefusals | autodub_pro/ui/subtitle_editor.py:438-464 | each failed check is refused with its own reason: no subtitles, no selection, cursor at an edge, blank part |
| SubtitleEditor.SplitAtCursorAsWritten | autodub_pro/ui/subtitle_editor.py:466-483 | as the code is written, the row still ends at the proportional split time, but the new row ends where it starts, at that same time; every refusal is as in the corrected split |
| SubtitleEditor.MergeUndoesSplit | autodub_pro/ui/subtitle_editor.py:382-497 | merging the two rows a split produced gives back the original row's start and end, its two stripped halves joined by a newline, and leaves every other row as it was |
| SubtitleEditor.SplitThenMerge | autodub_pro/ui/subtitle_editor.py:382-497 | merging after a split replaces the split row by one row whose end is the second part's end |
| SubtitleEditor.SplitAsWrittenLosesEnd | autodub_pro/ui/subtitle_editor.py:475-481 | as written, the new row has zero duration, and merging it back ends at the split time: the original end is lost |
| SubtitleEditor.SplitAsWrittenExample | autodub_pro/ui/subtitle_editor.py:475-481 | "a b" over 0 to 1000 ms split after "a": as written the new row runs 333 to 333 ms; corrected it ends at 1000 ms |
| SubtitleEditor.WholeSeconds | autodub_pro/ui/subtitle_editor.py:286-287 | hours times 3600 plus minutes times 60 plus seconds is the whole number of seconds in the time |
| SubtitleEditor.AddAtEnd | autodub_pro/ui/subtitle_editor.py:310-341 | with no selection, a blank row is appended, starting at the last row's end and lasting five seconds, numbered one past the last row, and selected |
| SubtitleEditor.AddAfter | autodub_pro/ui/subtitle_editor.py:274-308 | a blank row is inserted after the selected one, starting at its end; it ends five seconds later, or at the next row's start when five more whole seconds would pass the next row's start second; the list is renumbered and the new row selected |
| SubtitleEditor.InsertAfter | autodub_pro/ui/subtitle_editor.py:291-308 | the new row goes right after the selected one, the rows before and after it keep their cues and order, the list is numbered 1..n again and the new row is selected |
| SubtitleEditor.AddSubtitle | autodub_pro/ui/subtitle_editor.py:268-343 | refused exactly when there are no subtitles; otherwise one row is added, after the selection or at the end |
| SubtitleEditor.AddSubtitleAsWritten | autodub_pro/ui/subtitle_editor.py:280-299 | as written, adding after any row but the last raises (a `SubRipItem` has no `seconds`), and adding after the last row ends the new row at 00:00:05,000 |
| SubtitleEditor.AddAsWrittenExample | autodub_pro/ui/subtitle_editor.py:280-281 | a row added after a last row ending at 9 s ends at 5 s as written, before its start, and at 14 s corrected |
| SubtitleEditor.AddAsWrittenRaises | autodub_pro/ui/subtitle_editor.py:284-288 | with a row after the selection, the add raises as written, while the corrected add ends the new row five seconds after its start |
| SubtitleEditor.RemoveInserted | autodub_pro/ui/subtitle_editor.py:299 | removing an inserted row leaves the other rows' cues as before |
| SubtitleEditor.DeleteUndoesAdd | autodub_pro/ui/subtitle_editor.py:268-380 | deleting the row just added, with confirmation, gives back the original list, renumbered |
| SubtitleEditor.MergeWithNext | autodub_pro/ui/subtitle_editor.py:382-434 | two neighbouring rows can always be merged, and the result is their merged block |
| SubtitleEditor.FieldMicros | autodub_pro/ui/subtitle_editor.py:594-601 | hours, minutes, seconds and milliseconds over 1000 give the time in seconds, exactly |
| SubtitleEditor.FindAt | autodub_pro/ui/subtitle_editor.py:590-605 | the first row whose closed time range holds the position, or -1 when none does |
| SubtitleEditor.Highlight | autodub_pro/ui/subtitle_editor.py:580-609 | the list is unchanged; when a row holds the position, the first such row is selected; otherwise the selection is unchanged |
| Helpers.DotExtension | autodub_pro/utils/helpers.py:224-226 | the extension starts with a dot: an extension that already starts with one is returned as it is, any other gets one dot in front |
| Helpers.PathJoin | autodub_pro/utils/helpers.py:229 | `os.path.join(a, b)` ends with `b`; an absolute `b` is the result; otherwise the result is `a`, then a slash unless `a` is empty or already ends with one, then `b`, so a non-empty `a` is always followed by a slash |
| Helpers.CreateUniqueFilename | autodub_pro/utils/helpers.py:212-237 | the path returned does not exist, and it is the first of `base + ext`, `base_1 + ext`, `base_2 + ext`, ... that does not |
| Helpers.CandidatesDiffer | autodub_pro/utils/helpers.py:229-235 | different attempts give different paths, so the search always ends |
| Helpers.TriedSize | autodub_pro/utils/helpers.py:232-235 | `n` attempts try `n` different paths |
| Helpers.TriedWithin | autodub_pro/utils/helpers.py:232-235 | there are at least as many existing files as attempts that found one, which bounds the search |
| Helpers.DecimalOfDigits | autodub_pro/utils/helpers.py:186 | `float("D.F")` is `D` and `F` over ten to the number of digits of `F`, exactly |
| Helpers.ParseTimeOfFormat | autodub_pro/utils/helpers.py:172-199 | `parse_time` reads the `HH:MM:SS.mmm` display format of any time below 100 hours as that time in seconds, to the millisecond |
| Helpers.DecimalRejectsColon | autodub_pro/utils/helpers.py:193-199 | `float()` rejects text containing a colon |
| Helpers.ParseTimeHours | autodub_pro/utils/helpers.py:184-186 | with two colons, the parts before them are read by `int()` as hours and minutes and the rest by `float()` as seconds, giving `hours * 3600 + minutes * 60 + seconds`, or `None` when a part is unreadable |
| Helpers.ParseTimeMinutes | autodub_pro/utils/helpers.py:189-191 | with one colon, the part before it is read by `int()` as minutes and the rest by `float()` as seconds, giving `minutes * 60 + seconds`, or `None` when a part is unreadable |
| Helpers.ParseTimeSeconds | autodub_pro/utils/helpers.py:194-195 | without a colon, the result is `float()` of the whole text |
| Helpers.ParseTimeTooManyColons | autodub_pro/utils/helpers.py:184-199 | with three colons or more, `parse_time` gives `None` |

## Left out

- Floating point: positions are whole microseconds and transcription times whole milliseconds. The source's float arithmetic is replaced by exact integers, so the 0.5 s gap test is an exact comparison in milliseconds, and `parse_time` returns an exact decimal.
- Timestamp.FromMicros: `timedelta(seconds=x)` raises `OverflowError` once x is beyond 999,999,999 days, about 8.64e13 s. The model gives every position its time of day instead, so Subtitle.Crop, Subtitle.SplitAt and Subtitle.SetTiming do not model that error.
- Transcript.ToSrt: for the same reason, the empty result `aws_result_to_srt` returns when a transcription time is beyond `timedelta`'s range is not modelled.
- Subtitle.Duration: returns milliseconds. The source divides by 1000.0 and returns float seconds.
- `float()` is modelled only for decimal literals. Exponents, `inf`, `nan` and non-ASCII digits are not modelled, and neither are non-ASCII digits in `int()`.
- Transcript.Words: an item whose `type` is anything but `pronunciation` is modelled as punctuation. A missing `alternatives` key or `content` key is given as one alternative with empty content. Item times are given as numbers: a missing time, which the source reads as 0, is given as 0, and a time `float()` cannot read is not modelled.
- `load_srt`, `save_srt`, `set_subtitles`, `get_subtitles` and `populate_table`: file and widget I/O.
- `edit_timing`, `selection_changed`, `text_edited` and `update_editor`: dialogs and widget plumbing. The timestamp parsing that `edit_timing` relies on is modelled as `Timestamp.Format` and its parser.
- Qt signals: the selection is assumed to survive `populate_table`. The rows Qt reports are taken as distinct and in range.
- SubtitleEditor.SplitAtCursor: the cursor position counts characters of the subtitle's text. The model takes the text box to hold the selected subtitle's text, and counts in code points, not UTF-16 units.
- SubtitleEditor.AddSubtitle: the empty-list branch at lines 315-316 is unreachable after the `has_subtitles` check, and is left out.
- SubtitleEditor.MergeUndoesSplit: stated for any state that meets the corrected split's contract, not only for the split's own output.
- pysrt's `copy()` and object identity: subtitles are values.
- `os.path.join` follows POSIX; the Windows rules and path normalisation are not modelled. The files that exist are given as a finite set.
- The remaining helpers (temporary directories, FFmpeg discovery, `format_time`, file copying): I/O, and not part of this model.

## Findings

| source | as written | input that shows it | evidently intended | confidence | as-written member | corrected member |
|---|---|---|---|---|---|---|
| autodub_pro/ui/subtitle_editor.py:475-481 | `current_sub.end` is set to the split time before the new row copies `current_sub.end`, so the new row ends at the split time | text "a b" from 0 to 1000 ms, cursor 1: the second row runs 333 to 333 ms | the second row ends at the original end, 1000 ms | high, not executed | SubtitleEditor.SplitAtCursorAsWritten, SubtitleEditor.SplitAsWrittenLosesEnd | SubtitleEditor.SplitAtCursor, SubtitleEditor.MergeUndoesSplit |
| autodub_pro/ui/subtitle_editor.py:281 | the default end is the absolute time 00:00:05,000, though the comment says five seconds after the start | last row ending at 9 s selected: the new row runs from 9 s to 5 s | end five seconds after the new row's start | high, not executed | SubtitleEditor.AddSubtitleAsWritten, SubtitleEditor.AddAsWrittenExample | SubtitleEditor.AddSubtitle, SubtitleEditor.AddAfter |
| autodub_pro/ui/subtitle_editor.py:287 | reads `next_sub.seconds`, an attribute a `SubRipItem` does not have, so the add raises whenever a row follows the selection | two rows, the first selected: `AttributeError` | `next_sub.start.seconds` | medium (pysrt is not part of this model), not executed | SubtitleEditor.AddSubtitleAsWritten, SubtitleEditor.AddAsWrittenRaises | SubtitleEditor.AddAfter, SubtitleEditor.DeleteUndoesAdd |
