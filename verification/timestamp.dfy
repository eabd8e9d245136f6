/**
 * Subtitle times. A time is a pysrt `SubRipTime` reduced to its ordinal, a
 * whole number of milliseconds; its hour, minute, second and millisecond
 * fields are read from the ordinal by floor division. This module holds the
 * `HH:MM:SS.mmm` display format, the editor's parser for it, and the
 * conversion of a position in seconds into a time.
 */
module Timestamp {
  import opened Wrappers
  import opened PyText
  import opened PyNumber

  const SecondMs: int := 1000
  const MinuteMs: int := 60_000
  const HourMs: int := 3_600_000
  const DayMs: int := 86_400_000
  /** A day in microseconds, the unit a `timedelta` keeps. */
  const DayUs: int := 86_400_000_000

  function Hours(t: int): int { t / HourMs }
  function Minutes(t: int): int { (t % HourMs) / MinuteMs }
  function Seconds(t: int): int { (t % MinuteMs) / SecondMs }
  function Millis(t: int): int { t % SecondMs }

  /** The ordinal of `SubRipTime(h, m, s, ms)`: no field is range-checked. */
  function FromParts(h: int, m: int, s: int, ms: int): int
  {
    h * HourMs + m * MinuteMs + s * SecondMs + ms
  }

  /** The fields read from a time rebuild it, and all but the hours are in range. */
  lemma {:induction false} PartsOfTime(t: int)
    ensures 0 <= Minutes(t) < 60 && 0 <= Seconds(t) < 60 && 0 <= Millis(t) < 1000
    ensures FromParts(Hours(t), Minutes(t), Seconds(t), Millis(t)) == t
  {
    var h, a := t / HourMs, t % HourMs;
    assert t == h * HourMs + a;
    var m, b := a / MinuteMs, a % MinuteMs;
    assert a == m * MinuteMs + b;
    assert b == t % MinuteMs by {
      assert t == (h * 60 + m) * MinuteMs + b;
      ModUnique(t, MinuteMs, h * 60 + m, b);
    }
    var s, ms := b / SecondMs, b % SecondMs;
    assert b == s * SecondMs + ms;
    assert ms == t % SecondMs by {
      assert t == ((h * 60 + m) * 60 + s) * SecondMs + ms;
      ModUnique(t, SecondMs, (h * 60 + m) * 60 + s, ms);
    }
  }

  /** Euclidean remainder is the unique remainder in `[0, d)`. */
  lemma {:induction false} ModUnique(x: int, d: int, q: int, r: int)
    requires d > 0 && x == q * d + r && 0 <= r < d
    ensures x % d == r && x / d == q
  {
    var q', r' := x / d, x % d;
    assert x == q' * d + r';
    assert (q - q') * d == r' - r;
    if q > q' {
      MulAtLeast(q - q', d);
    } else if q < q' {
      MulAtLeast(q' - q, d);
    }
  }

  lemma {:induction false} MulAtLeast(a: int, d: int)
    requires a >= 1 && d > 0
    ensures a * d >= d
  {
  }

  /**
   * `f"{h:02d}:{m:02d}:{s:02d}.{ms:03d}"` of a time's fields: the display
   * format of the subtitle table, the timing label and the timing dialog.
   */
  function Format(t: int): (r: string)
    ensures Parse(r) == Ok(t)
    ensures 0 <= t < 100 * HourMs ==>
      |r| == 12 && r[2] == ':' && r[5] == ':' && r[8] == '.'
      && forall k :: 0 <= k < 12 && k != 2 && k != 5 && k != 8 ==> IsDigit(r[k])
  {
    FormatParses(t);
    FormatShape(t);
    FormatText(Hours(t), Minutes(t), Seconds(t), Millis(t))
  }

  function FormatText(h: int, m: int, s: int, ms: int): string
  {
    PadInt(h, 2) + ":" + PadInt(m, 2) + ":" + PadInt(s, 2) + "." + PadInt(ms, 3)
  }

  /** Why a timestamp was rejected: a `ValueError` in the source. */
  datatype FormatError = WrongFieldCount | NotANumber

  /**
   * The editor's `parse_timestamp`: commas become dots, exactly three
   * colon-separated fields are required, the third field's text after the
   * first dot is padded with zeros or cut to three digits, and a missing
   * fraction counts as zero milliseconds.
   */
  function Parse(s: string): Result<int, FormatError>
  {
    ParseDotted(Replace(s, ',', '.'))
  }

  /** `Parse` after the commas have become dots. */
  function ParseDotted(d: string): Result<int, FormatError>
  {
    var parts := Split(d, ':');
    if |parts| != 3 then Err(WrongFieldCount)
    else
      var secParts := Split(parts[2], '.');
      var h := ParseInt(parts[0]);
      var m := ParseInt(parts[1]);
      var sec := ParseInt(secParts[0]);
      var ms := if |secParts| > 1 then ParseInt(LJustCut3(secParts[1])) else Some(0);
      if h.None? || m.None? || sec.None? || ms.None? then Err(NotANumber)
      else Ok(FromParts(h.value, m.value, sec.value, ms.value))
  }

  /**
   * `_seconds_to_subrip_time` for a position of `us` microseconds: the
   * `timedelta` drops whole days, hours, minutes and seconds are taken from
   * its seconds field, and the microseconds are truncated to milliseconds.
   */
  function FromMicros(us: int): (t: int)
    ensures 0 <= t < DayMs
    ensures t == (us % DayUs) / 1000
  {
    var tdSeconds := (us / 1_000_000) % 86_400;
    var tdMicros := us % 1_000_000;
    var hours, rest := tdSeconds / 3600, tdSeconds % 3600;
    var minutes, seconds := rest / 60, rest % 60;
    FromMicrosSteps(us, tdSeconds, tdMicros, hours, rest, minutes, seconds);
    FromParts(hours, minutes, seconds, tdMicros / 1000)
  }

  lemma {:induction false} FromMicrosSteps(us: int, tdSeconds: int, tdMicros: int, hours: int, rest: int, minutes: int, seconds: int)
    requires tdSeconds == (us / 1_000_000) % 86_400 && tdMicros == us % 1_000_000
    requires hours == tdSeconds / 3600 && rest == tdSeconds % 3600
    requires minutes == rest / 60 && seconds == rest % 60
    ensures FromParts(hours, minutes, seconds, tdMicros / 1000) == (us % DayUs) / 1000
    ensures 0 <= FromParts(hours, minutes, seconds, tdMicros / 1000) < DayMs
  {
    assert tdSeconds == hours * 3600 + minutes * 60 + seconds;
    var q := us / 1_000_000;
    assert us == q * 1_000_000 + tdMicros;
    assert q == (q / 86_400) * 86_400 + tdSeconds;
    assert us == (q / 86_400) * DayUs + (tdSeconds * 1_000_000 + tdMicros);
    ModUnique(us, DayUs, q / 86_400, tdSeconds * 1_000_000 + tdMicros);
    assert tdSeconds * 1_000_000 + tdMicros == (tdSeconds * 1000) * 1000 + tdMicros;
    ModUnique(tdSeconds * 1_000_000 + tdMicros, 1000, tdSeconds * 1000 + tdMicros / 1000, tdMicros % 1000);
  }

  // ---------------------------------------------------------------------------
  // Parser laws

  /**
   * What the parser accepts: three fields with no separators inside them,
   * the last one optionally followed by `.` or `,` and a fraction.
   */
  lemma {:induction false} ParseFields(hs: string, ms: string, ss: string, h: int, m: int, s: int)
    requires NoSeparator(hs) && NoSeparator(ms) && NoSeparator(ss)
    requires ParseInt(hs) == Some(h) && ParseInt(ms) == Some(m) && ParseInt(ss) == Some(s)
    ensures Parse(hs + ":" + ms + ":" + ss) == Ok(FromParts(h, m, s, 0))
  {
    var text := hs + ":" + ms + ":" + ss;
    FieldsNoComma(hs, ms, ss);
    ReplaceAbsent(text, ',', '.');
    SplitThree(hs, ms, ss);
    var parts := Split(Replace(text, ',', '.'), ':');
    assert parts == [hs, ms, ss];
    SplitNoSeparator(ss, '.');
    ParseFromParts(text, parts, [ss], h, m, s, Some(0));
  }

  /** With a fraction after a dot or a comma, the fraction is padded or cut to milliseconds. */
  lemma {:induction false} ParseFieldsFraction(hs: string, ms: string, ss: string, sep: char, fs: string, h: int, m: int, s: int)
    requires NoSeparator(hs) && NoSeparator(ms) && NoSeparator(ss) && NoSeparator(fs)
    requires sep == '.' || sep == ','
    requires ParseInt(hs) == Some(h) && ParseInt(ms) == Some(m) && ParseInt(ss) == Some(s)
    ensures Parse(hs + ":" + ms + ":" + ss + [sep] + fs) ==
      match ParseInt(LJustCut3(fs))
      case Some(f) => Ok(FromParts(h, m, s, f))
      case None => Err(NotANumber)
  {
    var text := hs + ":" + ms + ":" + ss + [sep] + fs;
    FractionFields(hs, ms, ss, sep, fs);
    DotSplit(ss, fs);
    ParseFromParts(text, [hs, ms, ss + "." + fs], [ss, fs], h, m, s, ParseInt(LJustCut3(fs)));
  }

  lemma DotSplit(ss: string, fs: string)
    requires '.' !in ss && '.' !in fs
    ensures Split(ss + "." + fs, '.') == [ss, fs]
  {
    SplitAtSeparator(ss, '.', fs);
    SplitNoSeparator(fs, '.');
  }

  lemma {:induction false} FractionFields(hs: string, ms: string, ss: string, sep: char, fs: string)
    requires NoSeparator(hs) && NoSeparator(ms) && NoSeparator(ss) && NoSeparator(fs)
    requires sep == '.' || sep == ','
    ensures Split(Replace(hs + ":" + ms + ":" + ss + [sep] + fs, ',', '.'), ':') == [hs, ms, ss + "." + fs]
  {
    ReplacedText(hs, ms, ss, sep, fs);
    Associate(hs + ":" + ms + ":" + ss, ".", fs);
    Associate(hs + ":" + ms + ":", ss, "." + fs);
    Associate(ss, ".", fs);
    ThirdNoColon(ss, fs);
    SplitThree(hs, ms, ss + "." + fs);
  }

  lemma ReplacedText(hs: string, ms: string, ss: string, sep: char, fs: string)
    requires NoSeparator(hs) && NoSeparator(ms) && NoSeparator(ss) && NoSeparator(fs)
    requires sep == '.' || sep == ','
    ensures Replace(hs + ":" + ms + ":" + ss + [sep] + fs, ',', '.') == hs + ":" + ms + ":" + ss + "." + fs
  {
    FieldsNoComma(hs, ms, ss);
    ReplaceTail(hs + ":" + ms + ":" + ss, sep, fs);
  }

  /** A comma or dot between two comma-free texts becomes a dot, and nothing else changes. */
  lemma ReplaceTail(p: string, sep: char, fs: string)
    requires ',' !in p && ',' !in fs && (sep == '.' || sep == ',')
    ensures Replace(p + [sep] + fs, ',', '.') == p + "." + fs
  {
    ReplaceAbsent(p, ',', '.');
    ReplaceFraction(sep, fs);
    ReplaceConcat(p, [sep] + fs);
    Associate(p, [sep], fs);
    Associate(p, ".", fs);
  }

  lemma Associate(x: string, y: string, z: string)
    ensures x + y + z == x + (y + z)
  {
  }

  lemma FieldsNoComma(hs: string, ms: string, ss: string)
    requires ',' !in hs && ',' !in ms && ',' !in ss
    ensures ',' !in hs + ":" + ms + ":" + ss
  {
  }

  /** `replace` works character by character, so it distributes over concatenation. */
  lemma {:induction false} ReplaceConcat(x: string, y: string)
    ensures Replace(x + y, ',', '.') == Replace(x, ',', '.') + Replace(y, ',', '.')
  {
    if |x| == 0 {
      assert x + y == y;
    } else {
      assert (x + y)[1..] == x[1..] + y;
      assert (x + y)[0] == x[0];
      ReplaceConcat(x[1..], y);
    }
  }

  lemma ThirdNoColon(ss: string, fs: string)
    requires ':' !in ss && ':' !in fs
    ensures ':' !in ss + "." + fs
  {
  }

  lemma ReplaceFraction(sep: char, fs: string)
    requires sep == '.' || sep == ','
    requires ',' !in fs
    ensures Replace([sep] + fs, ',', '.') == "." + fs
  {
    assert ([sep] + fs)[1..] == fs;
    ReplaceAbsent(fs, ',', '.');
  }

  /** `Parse` once the fields are known. */
  lemma ParseFromParts(text: string, parts: seq<string>, secParts: seq<string>, h: int, m: int, s: int, ms: Option<int>)
    requires parts == Split(Replace(text, ',', '.'), ':') && |parts| == 3
    requires secParts == Split(parts[2], '.')
    requires ParseInt(parts[0]) == Some(h) && ParseInt(parts[1]) == Some(m) && ParseInt(secParts[0]) == Some(s)
    requires ms == if |secParts| > 1 then ParseInt(LJustCut3(secParts[1])) else Some(0)
    ensures Parse(text) == match ms case Some(f) => Ok(FromParts(h, m, s, f)) case None => Err(NotANumber)
  {
  }

  /** A field in the display format carries none of `:`, `.` or `,`. */
  predicate NoSeparator(s: string)
  {
    ':' !in s && '.' !in s && ',' !in s
  }

  lemma {:induction false} SplitThree(a: string, b: string, c: string)
    requires ':' !in a && ':' !in b && ':' !in c
    ensures Split(a + ":" + b + ":" + c, ':') == [a, b, c]
  {
    assert a + ":" + b + ":" + c == a + [':'] + (b + [':'] + c);
    SplitAtSeparator(a, ':', b + [':'] + c);
    SplitAtSeparator(b, ':', c);
    SplitNoSeparator(c, ':');
  }

  /** A comma and a dot before the fraction parse alike. */
  lemma {:induction false} ParseCommaIsDot(a: string, b: string)
    ensures Parse(a + "," + b) == Parse(a + "." + b)
  {
    ReplaceCommaDot(a, b);
  }

  lemma ReplaceCommaDot(a: string, b: string)
    ensures Replace(a + "," + b, ',', '.') == Replace(a + "." + b, ',', '.')
  {
    ReplaceConcat(a + ",", b);
    ReplaceConcat(a + ".", b);
    ReplaceConcat(a, ",");
    ReplaceConcat(a, ".");
  }

  /** Without exactly two colons the parser raises. */
  lemma {:induction false} ParseNeedsTwoColons(s: string)
    requires Count(s, ':') != 2
    ensures Parse(s) == Err(WrongFieldCount)
  {
    ReplaceCount(s);
  }

  lemma {:induction false} ReplaceCount(s: string)
    ensures Count(Replace(s, ',', '.'), ':') == Count(s, ':')
  {
    if |s| > 0 {
      ReplaceCount(s[1..]);
      assert Replace(s, ',', '.')[1..] == Replace(s[1..], ',', '.');
    }
  }

  // ---------------------------------------------------------------------------
  // Format/parse agreement

  lemma {:induction false} FormatParses(t: int)
    ensures Parse(FormatText(Hours(t), Minutes(t), Seconds(t), Millis(t))) == Ok(t)
  {
    PartsOfTime(t);
    var h, m, s, ms := Hours(t), Minutes(t), Seconds(t), Millis(t);
    var hs, mstr, ss, fs := PadInt(h, 2), PadInt(m, 2), PadInt(s, 2), PadInt(ms, 3);
    PaddedNoSeparator(h, 2);
    PaddedNoSeparator(m, 2);
    PaddedNoSeparator(s, 2);
    PaddedNoSeparator(ms, 3);
    assert |fs| == 3;
    assert LJustCut3(fs) == fs;
    ParseFieldsFraction(hs, mstr, ss, '.', fs, h, m, s);
    assert FormatText(h, m, s, ms) == hs + ":" + mstr + ":" + ss + ['.'] + fs;
  }

  /** Below 100 hours the format is exactly `HH:MM:SS.mmm`. */
  lemma {:induction false} FormatShape(t: int)
    ensures 0 <= t < 100 * HourMs ==>
      var r := FormatText(Hours(t), Minutes(t), Seconds(t), Millis(t));
      |r| == 12 && r[2] == ':' && r[5] == ':' && r[8] == '.'
      && forall k :: 0 <= k < 12 && k != 2 && k != 5 && k != 8 ==> IsDigit(r[k])
  {
    if 0 <= t < 100 * HourMs {
      PartsOfTime(t);
      assert Pow10(2) == 100 && Pow10(3) == 1000;
      assert 0 <= Hours(t) < 100;
      FieldsShape(PadInt(Hours(t), 2), PadInt(Minutes(t), 2), PadInt(Seconds(t), 2), PadInt(Millis(t), 3));
    }
  }

  lemma {:induction false} FieldsShape(hs: string, ms: string, ss: string, fs: string)
    requires |hs| == 2 && |ms| == 2 && |ss| == 2 && |fs| == 3
    requires forall k :: 0 <= k < 2 ==> IsDigit(hs[k]) && IsDigit(ms[k]) && IsDigit(ss[k])
    requires forall k :: 0 <= k < 3 ==> IsDigit(fs[k])
    ensures var r := hs + ":" + ms + ":" + ss + "." + fs;
      |r| == 12 && r[2] == ':' && r[5] == ':' && r[8] == '.'
      && forall k :: 0 <= k < 12 && k != 2 && k != 5 && k != 8 ==> IsDigit(r[k])
  {
    var r := hs + ":" + ms + ":" + ss + "." + fs;
    forall k | 0 <= k < 12 && k != 2 && k != 5 && k != 8 ensures IsDigit(r[k]) {
      if k < 2 {
        assert r[k] == hs[k];
      } else if k < 5 {
        assert r[k] == ms[k - 3];
      } else if k < 8 {
        assert r[k] == ss[k - 6];
      } else {
        assert r[k] == fs[k - 9];
      }
    }
  }

  lemma {:induction false} PaddedNoSeparator(n: int, w: nat)
    ensures NoSeparator(PadInt(n, w))
  {
    if n >= 0 {
      DigitsNoSeparator(PadInt(n, w));
    } else {
      var f := ZeroFill(DecimalString(-n), w - 1);
      ZeroFillDigits(DecimalString(-n), w - 1);
      DigitsNoSeparator(f);
      assert PadInt(n, w) == "-" + f;
    }
  }

  lemma DigitsNoSeparator(r: string)
    requires forall k :: 0 <= k < |r| ==> IsDigit(r[k])
    ensures NoSeparator(r)
  {
  }

}
