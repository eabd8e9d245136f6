/**
 * Two helpers of the utilities module: choosing an unused file name, and
 * reading a time written as `HH:MM:SS.mmm`, `MM:SS.mmm` or `SS.mmm`.
 */
module Helpers {
  import opened Wrappers
  import opened PyText
  import opened PyNumber
  import opened Timestamp

  // ---------------------------------------------------------------------------
  // create_unique_filename

  predicate StartsWith(s: string, p: string)
  {
    |p| <= |s| && s[..|p|] == p
  }

  predicate EndsWith(s: string, p: string)
  {
    |p| <= |s| && s[|s| - |p|..] == p
  }

  /** The extension with a leading dot, added when it is missing. */
  function DotExtension(ext: string): (r: string)
    ensures |r| > 0 && r[0] == '.'
    ensures EndsWith(r, ext)
    ensures |r| <= |ext| + 1
    ensures StartsWith(ext, ".") ==> r == ext
    ensures !StartsWith(ext, ".") ==> r == "." + ext
  {
    if |ext| > 0 && ext[0] == '.' then ext else "." + ext
  }

  /**
   * `posixpath.join(a, b)`: an absolute `b` replaces `a`; otherwise `b` is
   * appended, with a slash unless `a` is empty or already ends with one.
   */
  function PathJoin(a: string, b: string): (r: string)
    ensures EndsWith(r, b)
    ensures (|b| > 0 && b[0] == '/') == (r == b && (|b| > 0 && b[0] == '/'))
    ensures !(|b| > 0 && b[0] == '/') ==> StartsWith(r, a)
    ensures !(|b| > 0 && b[0] == '/') ==> r == a + Separator(a) + b
    ensures !(|b| > 0 && b[0] == '/') && a != "" ==> r[|r| - |b| - 1] == '/'
  {
    if |b| > 0 && b[0] == '/' then b
    else if a == "" || a[|a| - 1] == '/' then a + b
    else a + "/" + b
  }

  /** What `posixpath.join` puts between `a` and a relative path: a slash, unless `a` is empty or ends with one. */
  function Separator(a: string): string
  {
    if a == "" || a[|a| - 1] == '/' then "" else "/"
  }

  /** The file name tried on attempt `k`: `base + ext`, then `base_1 + ext`, `base_2 + ext`, ... */
  function FileName(base: string, ext: string, k: nat): string
  {
    if k == 0 then base + ext else base + "_" + DecimalString(k) + ext
  }

  /** The path tried on attempt `k`. */
  function Candidate(dir: string, base: string, ext: string, k: nat): string
  {
    PathJoin(dir, FileName(base, ext, k))
  }

  /** `path` is the first candidate not in `existing`, reached on attempt `k`. */
  ghost predicate FirstFree(existing: set<string>, dir: string, base: string, ext: string, k: nat, path: string)
  {
    && path == Candidate(dir, base, ext, k)
    && path !in existing
    && forall j :: 0 <= j < k ==> Candidate(dir, base, ext, j) in existing
  }

  /**
   * `create_unique_filename`, with the files that exist given as a finite set
   * of paths: the first candidate path that does not exist.
   */
  method CreateUniqueFilename(existing: set<string>, dir: string, base: string, ext: string) returns (path: string)
    ensures path !in existing
    ensures exists k: nat :: FirstFree(existing, dir, base, DotExtension(ext), k, path)
  {
    var e := DotExtension(ext);
    path := PathJoin(dir, base + e);
    assert path == Candidate(dir, base, e, 0);
    var counter: nat := 1;
    while path in existing
      invariant path == Candidate(dir, base, e, counter - 1)
      invariant forall j :: 0 <= j < counter - 1 ==> Candidate(dir, base, e, j) in existing
      invariant counter - 1 <= |existing|
      decreases |existing| - (counter - 1)
    {
      TriedWithin(existing, dir, base, e, counter);
      path := PathJoin(dir, base + "_" + DecimalString(counter) + e);
      assert path == Candidate(dir, base, e, counter);
      counter := counter + 1;
    }
    assert FirstFree(existing, dir, base, e, counter - 1, path);
  }

  /** The paths tried on the first `n` attempts. */
  ghost function Tried(dir: string, base: string, ext: string, n: nat): set<string>
  {
    if n == 0 then {} else Tried(dir, base, ext, n - 1) + {Candidate(dir, base, ext, n - 1)}
  }

  lemma {:induction false} TriedMembers(dir: string, base: string, ext: string, n: nat, p: string)
    requires p in Tried(dir, base, ext, n)
    ensures exists j :: 0 <= j < n && Candidate(dir, base, ext, j) == p
  {
    if p != Candidate(dir, base, ext, n - 1) {
      TriedMembers(dir, base, ext, n - 1, p);
    }
  }

  /** All attempts give distinct paths, so `n` attempts try `n` paths. */
  lemma {:induction false} TriedSize(dir: string, base: string, ext: string, n: nat)
    requires |ext| > 0 && ext[0] == '.'
    ensures |Tried(dir, base, ext, n)| == n
  {
    if n > 0 {
      TriedSize(dir, base, ext, n - 1);
      var c := Candidate(dir, base, ext, n - 1);
      if c in Tried(dir, base, ext, n - 1) {
        TriedMembers(dir, base, ext, n - 1, c);
        var j :| 0 <= j < n - 1 && Candidate(dir, base, ext, j) == c;
        CandidatesDiffer(dir, base, ext, j, n - 1);
      }
    }
  }

  lemma {:induction false} TriedExist(existing: set<string>, dir: string, base: string, ext: string, n: nat)
    requires forall j :: 0 <= j < n ==> Candidate(dir, base, ext, j) in existing
    ensures Tried(dir, base, ext, n) <= existing
  {
    if n > 0 {
      TriedExist(existing, dir, base, ext, n - 1);
    }
  }

  /** After `n` attempts that all hit existing files, there are at least `n` of them. */
  lemma {:induction false} TriedWithin(existing: set<string>, dir: string, base: string, ext: string, n: nat)
    requires |ext| > 0 && ext[0] == '.'
    requires forall j :: 0 <= j < n ==> Candidate(dir, base, ext, j) in existing
    ensures n <= |existing|
  {
    TriedExist(existing, dir, base, ext, n);
    TriedSize(dir, base, ext, n);
    SubsetSize(Tried(dir, base, ext, n), existing);
  }

  lemma SubsetSize(a: set<string>, b: set<string>)
    requires a <= b
    ensures |a| <= |b|
  {
    assert b == a + (b - a);
  }

  /** Different attempts give different paths, so the search cannot loop. */
  lemma CandidatesDiffer(dir: string, base: string, ext: string, i: nat, j: nat)
    requires |ext| > 0 && ext[0] == '.'
    requires i != j
    ensures Candidate(dir, base, ext, i) != Candidate(dir, base, ext, j)
  {
    var a, b := FileName(base, ext, i), FileName(base, ext, j);
    FileNamesDiffer(base, ext, i, j);
    SameStart(base, ext, i, j);
    JoinInjective(dir, a, b);
  }

  /** Two names that start alike are both absolute or both relative. */
  lemma SameStart(base: string, ext: string, i: nat, j: nat)
    requires |ext| > 0 && ext[0] == '.'
    ensures var a, b := FileName(base, ext, i), FileName(base, ext, j);
      (|a| > 0 && a[0] == '/') == (|b| > 0 && b[0] == '/')
  {
    var a, b := FileName(base, ext, i), FileName(base, ext, j);
    if |base| > 0 {
      assert a[0] == base[0] && b[0] == base[0];
    } else {
      assert a[0] == '.' || a[0] == '_';
      assert b[0] == '.' || b[0] == '_';
    }
  }

  lemma {:induction false} FileNamesDiffer(base: string, ext: string, i: nat, j: nat)
    requires i != j
    ensures FileName(base, ext, i) != FileName(base, ext, j)
  {
    if i == 0 || j == 0 {
      var k := if i == 0 then j else i;
      assert |FileName(base, ext, k)| > |FileName(base, ext, 0)|;
    } else {
      NumberedNamesDiffer(base, ext, i, j);
    }
  }

  /** `base_i + ext` and `base_j + ext` differ: the number sits between fixed text. */
  lemma {:induction false} NumberedNamesDiffer(base: string, ext: string, i: nat, j: nat)
    requires 0 < i && 0 < j && i != j
    ensures base + "_" + DecimalString(i) + ext != base + "_" + DecimalString(j) + ext
  {
    var di, dj := DecimalString(i), DecimalString(j);
    var a, b := base + "_" + di + ext, base + "_" + dj + ext;
    assert RunValue(di) != RunValue(dj);
    if |di| == |dj| {
      assert a[|base| + 1..|base| + 1 + |di|] == di;
      assert b[|base| + 1..|base| + 1 + |dj|] == dj;
    } else {
      assert |a| != |b|;
    }
  }

  lemma JoinInjective(dir: string, a: string, b: string)
    requires a != b
    requires (|a| > 0 && a[0] == '/') == (|b| > 0 && b[0] == '/')
    ensures PathJoin(dir, a) != PathJoin(dir, b)
  {
    var ra, rb := PathJoin(dir, a), PathJoin(dir, b);
    if !(|a| > 0 && a[0] == '/') && |a| == |b| {
      assert a == ra[|ra| - |a|..] && b == rb[|rb| - |b|..];
    }
  }

  // ---------------------------------------------------------------------------
  // parse_time

  /** `d + n` for a whole number `n`, exactly. */
  function AddWhole(d: Dec, n: int): Dec
  {
    Dec(Shift(n, d.places) + d.units, d.places)
  }

  /**
   * `parse_time`: with two colons, hours, minutes and seconds; with one,
   * minutes and seconds; otherwise seconds alone. Hours and minutes are
   * integers, the seconds a decimal number; anything unreadable gives `None`.
   */
  function ParseTime(s: string): Option<Dec>
  {
    // `s.count(':')` is one less than the number of parts `s.split(':')` gives.
    var parts := Split(s, ':');
    if |parts| == 3 then Clock(ParseInt(parts[0]), ParseInt(parts[1]), ParseDecimal(parts[2]))
    else if |parts| == 2 then Clock(Some(0), ParseInt(parts[0]), ParseDecimal(parts[1]))
    else ParseDecimal(s)
  }

  /** `hours * 3600 + minutes * 60 + seconds`, or `None` when a field did not parse. */
  function Clock(hours: Option<int>, minutes: Option<int>, seconds: Option<Dec>): Option<Dec>
  {
    if hours.None? || minutes.None? || seconds.None? then None
    else Some(AddWhole(seconds.value, hours.value * 3600 + minutes.value * 60))
  }

  /** `float("D.F")` for digit strings `D` and `F`: `F` sets the number of decimal places. */
  lemma {:induction false} DecimalOfDigits(a: string, b: string)
    requires |a| > 0 && forall k :: 0 <= k < |a| ==> IsDigit(a[k])
    requires |b| > 0 && forall k :: 0 <= k < |b| ==> IsDigit(b[k])
    ensures ParseDecimal(a + "." + b) == Some(Dec(Shift(RunValue(a), |b|) + RunValue(b), |b|))
  {
    var s := a + "." + b;
    DigitsStrip(a, b);
    DigitsSplit(a, b);
    DigitsAreRun(a);
    DigitsAreRun(b);
    assert s[0] == a[0];
    DecimalOfFields(s, a, b);
  }

  /** An unsigned, already stripped text that splits at '.' into two digit runs. */
  lemma {:induction false} DecimalOfFields(s: string, a: string, b: string)
    requires Strip(s) == s && |s| > 0 && s[0] != '-' && s[0] != '+'
    requires Split(s, '.') == [a, b]
    requires IsDigitRun(a) && IsDigitRun(b) && DigitCount(b) == |b|
    ensures ParseDecimal(s) == Some(Dec(Shift(RunValue(a), |b|) + RunValue(b), |b|))
  {
    var parts := Split(s, '.');
    assert |parts| == 2 && parts[0] == a && parts[1] == b;
    assert Signed(false, Shift(RunValue(a), |b|) + RunValue(b)) == Shift(RunValue(a), |b|) + RunValue(b);
  }

  lemma {:induction false} DigitsStrip(a: string, b: string)
    requires |a| > 0 && IsDigit(a[0])
    requires |b| > 0 && IsDigit(b[|b| - 1])
    ensures Strip(a + "." + b) == a + "." + b
  {
    var s := a + "." + b;
    assert s[0] == a[0] && s[|s| - 1] == b[|b| - 1];
    DigitNotSpace(a[0]);
    DigitNotSpace(b[|b| - 1]);
    StripUnchanged(s);
  }

  lemma {:induction false} DigitsSplit(a: string, b: string)
    requires forall k :: 0 <= k < |a| ==> IsDigit(a[k])
    requires forall k :: 0 <= k < |b| ==> IsDigit(b[k])
    ensures Split(a + "." + b, '.') == [a, b]
  {
    assert '.' !in a by { forall k | 0 <= k < |a| ensures a[k] != '.' { assert IsDigit(a[k]); } }
    assert '.' !in b by { forall k | 0 <= k < |b| ensures b[k] != '.' { assert IsDigit(b[k]); } }
    assert a + "." + b == a + ['.'] + b;
    SplitAtSeparator(a, '.', b);
    SplitNoSeparator(b, '.');
  }

  /** `parse_time` on a string that splits into three fields. */
  lemma ParseTimeThree(s: string, a: string, b: string, c: string)
    requires Split(s, ':') == [a, b, c]
    ensures ParseTime(s) == Clock(ParseInt(a), ParseInt(b), ParseDecimal(c))
  {
  }

  lemma DigitsNoColon(ss: string, fs: string)
    requires forall k :: 0 <= k < |ss| ==> IsDigit(ss[k])
    requires forall k :: 0 <= k < |fs| ==> IsDigit(fs[k])
    ensures ':' !in ss + "." + fs
  {
    var c := ss + "." + fs;
    forall k | 0 <= k < |c| ensures c[k] != ':' {
      if k < |ss| { assert c[k] == ss[k]; } else if k > |ss| { assert c[k] == fs[k - |ss| - 1]; }
    }
  }

  /** Reading back the display format gives the time in seconds, to the millisecond. */
  lemma {:induction false} ParseTimeOfFormat(t: int)
    requires 0 <= t < 100 * HourMs
    ensures ParseTime(Format(t)) == Some(Dec(t, 3))
  {
    PartsOfTime(t);
    assert 0 <= Hours(t) < 100;
    ParseTimeOfText(Hours(t), Minutes(t), Seconds(t), Millis(t));
  }

  lemma {:induction false} ParseTimeOfText(h: int, m: int, s: int, ms: int)
    requires 0 <= h < 100 && 0 <= m < 60 && 0 <= s < 60 && 0 <= ms < 1000
    ensures ParseTime(FormatText(h, m, s, ms)) == Some(Dec(FromParts(h, m, s, ms), 3))
  {
    var hs, mstr, ss, fs := PadInt(h, 2), PadInt(m, 2), PadInt(s, 2), PadInt(ms, 3);
    assert Pow10(2) == 100 && Pow10(3) == 1000;
    assert ':' !in hs && ':' !in mstr by {
      PaddedNoSeparator(h, 2);
      PaddedNoSeparator(m, 2);
    }
    assert RunValue(ss) == s && RunValue(fs) == ms by {
      ParseDigits(ss);
      ParseDigits(fs);
    }
    ParseTimeOfNumbers(FormatText(h, m, s, ms), hs, mstr, ss, fs, h, m, s, ms);
  }

  /** `parse_time` on `H:M:S.mmm` for integers `H` and `M` and digit strings `S` and `mmm`. */
  lemma ParseTimeOfNumbers(w: string, hs: string, mstr: string, ss: string, fs: string, h: int, m: int, s: int, ms: int)
    requires w == hs + ":" + mstr + ":" + ss + "." + fs
    requires ':' !in hs && ':' !in mstr
    requires |ss| > 0 && forall k :: 0 <= k < |ss| ==> IsDigit(ss[k])
    requires |fs| == 3 && forall k :: 0 <= k < |fs| ==> IsDigit(fs[k])
    requires ParseInt(hs) == Some(h) && ParseInt(mstr) == Some(m)
    requires RunValue(ss) == s && RunValue(fs) == ms
    ensures ParseTime(w) == Some(Dec(FromParts(h, m, s, ms), 3))
  {
    ParseTimeOfFields(w, hs, mstr, ss, fs, h, m);
    ClockValue(ParseTime(w), ss, fs, h, m, s, ms);
  }

  lemma ParseTimeOfFields(w: string, hs: string, mstr: string, ss: string, fs: string, h: int, m: int)
    requires w == hs + ":" + mstr + ":" + ss + "." + fs
    requires ':' !in hs && ':' !in mstr
    requires |ss| > 0 && forall k :: 0 <= k < |ss| ==> IsDigit(ss[k])
    requires |fs| > 0 && forall k :: 0 <= k < |fs| ==> IsDigit(fs[k])
    requires ParseInt(hs) == Some(h) && ParseInt(mstr) == Some(m)
    ensures ParseTime(w) == Clock(Some(h), Some(m), Some(Dec(Shift(RunValue(ss), |fs|) + RunValue(fs), |fs|)))
  {
    Regroup(hs, mstr, ss, fs);
    ParseTimeOfDigits(w, hs, mstr, ss, fs);
  }

  /** `parse_time` on `H:M:S.F` for digit strings `S` and `F`. */
  lemma ParseTimeOfDigits(w: string, hs: string, ms: string, ss: string, fs: string)
    requires w == hs + ":" + ms + ":" + (ss + "." + fs)
    requires ':' !in hs && ':' !in ms
    requires |ss| > 0 && forall k :: 0 <= k < |ss| ==> IsDigit(ss[k])
    requires |fs| > 0 && forall k :: 0 <= k < |fs| ==> IsDigit(fs[k])
    ensures ParseTime(w) == Clock(ParseInt(hs), ParseInt(ms), Some(Dec(Shift(RunValue(ss), |fs|) + RunValue(fs), |fs|)))
  {
    var c := ss + "." + fs;
    DigitsNoColon(ss, fs);
    DecimalOfDigits(ss, fs);
    SplitThree(hs, ms, c);
    ParseTimeThree(w, hs, ms, c);
  }

  lemma Regroup(a: string, b: string, c: string, d: string)
    ensures a + ":" + b + ":" + c + "." + d == a + ":" + b + ":" + (c + "." + d)
  {
  }

  /** Whole hours and minutes added to `S.mmm` give the clock time in milliseconds. */
  lemma ClockValue(x: Option<Dec>, ss: string, fs: string, h: int, m: int, s: int, ms: int)
    requires |ss| > 0 && forall k :: 0 <= k < |ss| ==> IsDigit(ss[k])
    requires |fs| == 3 && forall k :: 0 <= k < |fs| ==> IsDigit(fs[k])
    requires RunValue(ss) == s && RunValue(fs) == ms
    requires x == Clock(Some(h), Some(m), Some(Dec(Shift(RunValue(ss), |fs|) + RunValue(fs), |fs|)))
    ensures x == Some(Dec(FromParts(h, m, s, ms), 3))
  {
    ShiftThree(s);
    ShiftThree(h * 3600 + m * 60);
  }

  lemma ShiftThree(n: int)
    ensures Shift(n, 3) == n * 1000
  {
    assert Shift(n, 1) == 10 * n;
    assert Shift(n, 2) == 100 * n;
  }

  /** A colon makes a number unreadable to `float()`. */
  lemma {:induction false} DecimalRejectsColon(s: string)
    requires ':' in s
    ensures ParseDecimal(s) == None
  {
    ColonInBody(s);
    var t := Strip(s);
    var body := if |t| > 0 && (t[0] == '-' || t[0] == '+') then t[1..] else t;
    BodyWithColon(body);
  }

  /** The colon survives stripping and the sign. */
  lemma {:induction false} ColonInBody(s: string)
    requires ':' in s
    ensures var t := Strip(s);
      ':' in (if |t| > 0 && (t[0] == '-' || t[0] == '+') then t[1..] else t)
  {
    var t := Strip(s);
    var i :| StripsTo(s, i, t);
    var k :| 0 <= k < |s| && s[k] == ':';
    assert !IsSpace(':');
    assert i <= k < i + |t|;
    assert t[k - i] == ':';
    if |t| > 0 && (t[0] == '-' || t[0] == '+') {
      assert t[1..][k - i - 1] == ':';
    }
  }

  /** Neither a plain digit run nor `D.D` can hold a colon. */
  lemma {:induction false} BodyWithColon(body: string)
    requires ':' in body
    ensures !IsDigitRun(body)
    ensures var parts := Split(body, '.');
      |parts| == 2 ==> (parts[0] != "" && !IsDigitRun(parts[0])) || (parts[1] != "" && !IsDigitRun(parts[1]))
  {
    NoRunHasColon(body);
    var parts := Split(body, '.');
    if |parts| == 2 {
      JoinSplit(body, '.');
      assert body == parts[0] + "." + parts[1];
      ColonInOnePart(parts[0], parts[1]);
      if ':' in parts[0] { NoRunHasColon(parts[0]); } else { NoRunHasColon(parts[1]); }
    }
  }

  lemma NoRunHasColon(p: string)
    requires ':' in p
    ensures !IsDigitRun(p)
  {
    var k :| 0 <= k < |p| && p[k] == ':';
    assert !(IsDigit(p[k]) || p[k] == '_');
  }

  lemma ColonInOnePart(x: string, y: string)
    requires ':' in x + "." + y
    ensures ':' in x || ':' in y
  {
    var k :| 0 <= k < |x + "." + y| && (x + "." + y)[k] == ':';
    if k < |x| {
      assert x[k] == ':';
    } else {
      assert k > |x|;
      assert y[k - |x| - 1] == ':';
    }
  }

  /** `HH:MM:SS.mmm`: two colons give whole hours and minutes and decimal seconds. */
  lemma {:induction false} ParseTimeHours(a: string, b: string, c: string)
    requires ':' !in a && ':' !in b && ':' !in c
    ensures ParseTime(a + ":" + b + ":" + c) == Clock(ParseInt(a), ParseInt(b), ParseDecimal(c))
  {
    SplitThree(a, b, c);
    ParseTimeThree(a + ":" + b + ":" + c, a, b, c);
  }

  /** `MM:SS.mmm`: one colon gives whole minutes and decimal seconds, with no hours. */
  lemma {:induction false} ParseTimeMinutes(a: string, b: string)
    requires ':' !in a && ':' !in b
    ensures ParseTime(a + ":" + b) == Clock(Some(0), ParseInt(a), ParseDecimal(b))
  {
    assert a + ":" + b == a + [':'] + b;
    SplitAtSeparator(a, ':', b);
    SplitNoSeparator(b, ':');
  }

  /** `SS.mmm`: without a colon the whole text is read by `float()`. */
  lemma {:induction false} ParseTimeSeconds(s: string)
    requires ':' !in s
    ensures ParseTime(s) == ParseDecimal(s)
  {
    SplitNoSeparator(s, ':');
  }

  /** Three colons or more: none of the three forms applies. */
  lemma {:induction false} ParseTimeTooManyColons(s: string)
    requires Count(s, ':') > 2
    ensures ParseTime(s) == None
  {
    assert ':' in s;
    DecimalRejectsColon(s);
  }
}
