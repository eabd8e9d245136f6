/**
 * Python's decimal number conversions as the subtitle code uses them:
 * `int(s)`, the decimal-literal subset of `float(s)`, `str(n)` and the
 * zero-padded `f"{n:0Wd}"` format.
 */
module PyNumber {
  import opened Wrappers
  import opened PyText

  predicate IsDigit(c: char)
  {
    '0' <= c <= '9'
  }

  function DigitValue(c: char): (d: nat)
    requires IsDigit(c)
    ensures d < 10
  {
    (c as int) - ('0' as int)
  }

  function DigitChar(d: nat): (c: char)
    requires d < 10
    ensures IsDigit(c) && DigitValue(c) == d
  {
    (('0' as int) + d) as char
  }

  function Pow10(k: nat): (p: nat)
    ensures p >= 1
  {
    if k == 0 then 1 else 10 * Pow10(k - 1)
  }

  /** `n * 10^k`, written with one multiplication by ten per step. */
  function Shift(n: int, k: nat): (r: int)
    ensures n >= 0 ==> r >= 0
  {
    if k == 0 then n else 10 * Shift(n, k - 1)
  }

  lemma {:induction false} ShiftIsProduct(n: int, k: nat)
    ensures Shift(n, k) == n * Pow10(k)
  {
    if k > 0 {
      ShiftIsProduct(n, k - 1);
      assert n * Pow10(k) == 10 * (n * Pow10(k - 1));
    }
  }

  /** Only digits and underscores. */
  predicate DigitsOrUnderscores(s: string)
  {
    forall k :: 0 <= k < |s| ==> IsDigit(s[k]) || s[k] == '_'
  }

  /**
   * A run of ASCII digits in which single underscores may separate digits,
   * as Python's `int()` and `float()` accept it ("1_000", not "_1", "1_" or "1__0").
   */
  predicate IsDigitRun(s: string)
  {
    && |s| > 0
    && IsDigit(s[0])
    && IsDigit(s[|s| - 1])
    && DigitsOrUnderscores(s)
    && (forall k :: 0 <= k < |s| - 1 ==> s[k] == '_' ==> s[k + 1] != '_')
  }

  /** The number the digits of `s` spell, underscores skipped. */
  function RunValue(s: string): nat
    requires DigitsOrUnderscores(s)
  {
    if |s| == 0 then 0
    else if s[|s| - 1] == '_' then RunValue(s[..|s| - 1])
    else 10 * RunValue(s[..|s| - 1]) + DigitValue(s[|s| - 1])
  }

  /** How many digits `s` holds, underscores skipped. */
  function DigitCount(s: string): nat
    requires DigitsOrUnderscores(s)
  {
    if |s| == 0 then 0
    else (if s[|s| - 1] == '_' then 0 else 1) + DigitCount(s[..|s| - 1])
  }

  /** `int(s)`: optional surrounding whitespace, optional sign, then a digit run. */
  function ParseInt(s: string): Option<int>
  {
    var t := Strip(s);
    if |t| > 0 && (t[0] == '-' || t[0] == '+') then
      if IsDigitRun(t[1..]) then
        Some(Signed(t[0] == '-', RunValue(t[1..])))
      else None
    else if IsDigitRun(t) then Some(RunValue(t))
    else None
  }

  /** A decimal number `units / 10^places`, kept exact. */
  datatype Dec = Dec(units: int, places: nat)

  /**
   * `float(s)` restricted to decimal literals: optional whitespace and sign,
   * then "D", "D.", ".D" or "D.D" for digit runs D.
   */
  function ParseDecimal(s: string): Option<Dec>
  {
    var t := Strip(s);
    var negative := |t| > 0 && t[0] == '-';
    var body := if |t| > 0 && (t[0] == '-' || t[0] == '+') then t[1..] else t;
    var parts := Split(body, '.');
    if |parts| == 1 then
      if IsDigitRun(body) then Some(Dec(Signed(negative, RunValue(body)), 0)) else None
    else if |parts| == 2 then
      var whole := parts[0];
      var frac := parts[1];
      if (whole != "" || frac != "")
        && (whole == "" || IsDigitRun(whole))
        && (frac == "" || IsDigitRun(frac))
      then
        var places := DigitCount(frac);
        Some(Dec(Signed(negative, Shift(RunValue(whole), places) + RunValue(frac)), places))
      else None
    else None
  }

  function Signed(negative: bool, n: nat): int
  {
    if negative then -(n as int) else n
  }

  /** `str(n)` for a natural number: its shortest decimal digits. */
  function DecimalString(n: nat): (r: string)
    ensures |r| > 0
    ensures forall k :: 0 <= k < |r| ==> IsDigit(r[k])
    ensures |r| > 1 ==> r[0] != '0'
    ensures RunValue(r) == n
  {
    if n < 10 then [DigitChar(n)]
    else
      var r := DecimalString(n / 10) + [DigitChar(n % 10)];
      assert r[..|r| - 1] == DecimalString(n / 10);
      r
  }

  /** `s` zero-filled on the left up to `width` characters. */
  function ZeroFill(s: string, width: int): (r: string)
    ensures |r| == if |s| >= width then |s| else width
  {
    if |s| >= width then s else seq(width - |s|, _ => '0') + s
  }

  /**
   * `f"{n:0{width}d}"`: the digits of `|n|` zero-filled so that the whole
   * string, sign included, has at least `width` characters.
   */
  function PadInt(n: int, width: nat): (r: string)
    ensures ParseInt(r) == Some(n)
    ensures 0 <= n ==> forall k :: 0 <= k < |r| ==> IsDigit(r[k])
    ensures 0 <= n < Pow10(width) && width > 0 ==> |r| == width
  {
    var digits := DecimalString(if n < 0 then -n else n);
    var r := if n >= 0 then ZeroFill(digits, width) else "-" + ZeroFill(digits, width - 1);
    PadIntParses(n, digits, width, r);
    r
  }

  // ---------------------------------------------------------------------------
  // Lemmas

  /** Leading zeros do not change the value of a digit string. */
  lemma {:induction false} LeadingZerosValue(z: nat, s: string)
    requires forall k :: 0 <= k < |s| ==> IsDigit(s[k])
    ensures DigitsOrUnderscores(seq(z, _ => '0') + s)
    ensures RunValue(seq(z, _ => '0') + s) == RunValue(s)
  {
    var t := seq(z, _ => '0') + s;
    if |s| == 0 {
      assert t == seq(z, _ => '0');
      ZerosValue(z);
    } else {
      assert t[..|t| - 1] == seq(z, _ => '0') + s[..|s| - 1];
      LeadingZerosValue(z, s[..|s| - 1]);
    }
  }

  lemma {:induction false} ZerosValue(z: nat)
    ensures DigitsOrUnderscores(seq(z, _ => '0'))
    ensures RunValue(seq(z, _ => '0')) == 0
  {
    if z > 0 {
      assert seq(z, _ => '0')[..z - 1] == seq(z - 1, _ => '0');
      ZerosValue(z - 1);
    }
  }

  /** A string of digits alone is a digit run with as many digits as characters. */
  lemma {:induction false} DigitsAreRun(s: string)
    requires |s| > 0
    requires forall k :: 0 <= k < |s| ==> IsDigit(s[k])
    ensures IsDigitRun(s)
    ensures DigitCount(s) == |s|
  {
    DigitCountAll(s);
  }

  lemma {:induction false} DigitCountAll(s: string)
    requires forall k :: 0 <= k < |s| ==> IsDigit(s[k])
    ensures DigitCount(s) == |s|
  {
    if |s| > 0 {
      DigitCountAll(s[..|s| - 1]);
    }
  }

  lemma {:induction false} PadIntParses(n: int, digits: string, width: nat, r: string)
    requires digits == DecimalString(if n < 0 then -n else n)
    requires r == if n >= 0 then ZeroFill(digits, width) else "-" + ZeroFill(digits, width - 1)
    ensures ParseInt(r) == Some(n)
    ensures 0 <= n ==> forall k :: 0 <= k < |r| ==> IsDigit(r[k])
    ensures 0 <= n < Pow10(width) && width > 0 ==> |r| == width
  {
    if n >= 0 {
      PadNatural(n, digits, width, r);
    } else {
      PadNegative(n, digits, width, r);
    }
  }

  lemma {:induction false} PadNatural(n: nat, digits: string, width: nat, r: string)
    requires digits == DecimalString(n) && r == ZeroFill(digits, width)
    ensures ParseInt(r) == Some(n)
    ensures forall k :: 0 <= k < |r| ==> IsDigit(r[k])
    ensures n < Pow10(width) && width > 0 ==> |r| == width
  {
    if n < Pow10(width) {
      DecimalStringLength(n, width);
    }
    ZeroFillDigits(digits, width);
    ParseDigits(r);
  }

  lemma {:induction false} PadNegative(n: int, digits: string, width: nat, r: string)
    requires n < 0 && digits == DecimalString(-n) && r == "-" + ZeroFill(digits, width - 1)
    ensures ParseInt(r) == Some(n)
  {
    var filled := ZeroFill(digits, width - 1);
    ZeroFillDigits(digits, width - 1);
    ParseNegativeDigits(filled);
  }

  /** Zero-filling a digit string keeps it a digit string with the same value. */
  lemma {:induction false} ZeroFillDigits(digits: string, w: int)
    requires |digits| > 0 && forall k :: 0 <= k < |digits| ==> IsDigit(digits[k])
    ensures |ZeroFill(digits, w)| > 0
    ensures forall k :: 0 <= k < |ZeroFill(digits, w)| ==> IsDigit(ZeroFill(digits, w)[k])
    ensures RunValue(ZeroFill(digits, w)) == RunValue(digits)
  {
    if |digits| < w {
      LeadingZerosValue(w - |digits|, digits);
    }
  }

  /** A non-empty string of digits parses to the number it spells. */
  lemma {:induction false} ParseDigits(t: string)
    requires |t| > 0 && forall k :: 0 <= k < |t| ==> IsDigit(t[k])
    ensures ParseInt(t) == Some(RunValue(t))
  {
    DigitsAreRun(t);
    DigitNotSpace(t[0]);
    DigitNotSpace(t[|t| - 1]);
    StripUnchanged(t);
  }

  lemma DigitNotSpace(c: char)
    requires IsDigit(c) || c == '-'
    ensures !IsSpace(c)
  {
  }

  /** A minus sign before a non-empty string of digits negates it. */
  lemma {:induction false} ParseNegativeDigits(t: string)
    requires |t| > 0 && forall k :: 0 <= k < |t| ==> IsDigit(t[k])
    ensures ParseInt("-" + t) == Some(-(RunValue(t) as int))
  {
    var r := "-" + t;
    DigitsAreRun(t);
    assert r[1..] == t;
    assert r[|r| - 1] == t[|t| - 1];
    DigitNotSpace(r[0]);
    DigitNotSpace(r[|r| - 1]);
    StripUnchanged(r);
  }

  /** Numbers below `10^k` have at most `k` digits. */
  lemma {:induction false} DecimalStringLength(n: nat, k: nat)
    requires n < Pow10(k)
    ensures |DecimalString(n)| <= k || (n == 0 && k == 0)
  {
    if n >= 10 {
      DecimalStringLength(n / 10, k - 1);
    }
  }

  /** `int(str(n)) == n`. */
  lemma DecimalStringParses(n: nat)
    ensures ParseInt(DecimalString(n)) == Some(n)
  {
    assert PadInt(n, 0) == DecimalString(n);
  }
}
