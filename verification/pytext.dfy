/**
 * The handful of Python `str` operations the subtitle code relies on:
 * `isspace`/`strip`, `split` and `count` on a one-character separator,
 * `replace` of one character, `join`, and `ljust` followed by a slice.
 */
module PyText {

  /** Characters for which Python's `str.isspace()` is true. */
  const Whitespace: set<char> := {
    ' ', '\U{9}', '\U{A}', '\U{B}', '\U{C}', '\U{D}',
    '\U{1C}', '\U{1D}', '\U{1E}', '\U{1F}', '\U{85}', '\U{A0}', '\U{1680}',
    '\U{2000}', '\U{2001}', '\U{2002}', '\U{2003}', '\U{2004}', '\U{2005}',
    '\U{2006}', '\U{2007}', '\U{2008}', '\U{2009}', '\U{200A}',
    '\U{2028}', '\U{2029}', '\U{202F}', '\U{205F}', '\U{3000}'
  }

  predicate IsSpace(c: char)
  {
    c in Whitespace
  }

  /** Number of whitespace characters `s` starts with. */
  function LeadingSpaces(s: string): (n: nat)
    ensures n <= |s|
    ensures forall k :: 0 <= k < n ==> IsSpace(s[k])
    ensures n < |s| ==> !IsSpace(s[n])
  {
    if |s| > 0 && IsSpace(s[0]) then 1 + LeadingSpaces(s[1..]) else 0
  }

  /** Number of whitespace characters `s` ends with. */
  function TrailingSpaces(s: string): (n: nat)
    ensures n <= |s|
    ensures forall k :: |s| - n <= k < |s| ==> IsSpace(s[k])
    ensures n < |s| ==> !IsSpace(s[|s| - n - 1])
  {
    if |s| > 0 && IsSpace(s[|s| - 1]) then 1 + TrailingSpaces(s[..|s| - 1]) else 0
  }

  /** `r` is `s` with exactly the whitespace before position `i` and after `r` removed. */
  ghost predicate StripsTo(s: string, i: int, r: string)
  {
    && 0 <= i <= |s| - |r|
    && r == s[i..i + |r|]
    && (forall k :: 0 <= k < i ==> IsSpace(s[k]))
    && (forall k :: i + |r| <= k < |s| ==> IsSpace(s[k]))
  }

  /** `s.strip()`: a slice of `s` with no whitespace at either end, and only whitespace cut away. */
  function Strip(s: string): (r: string)
    ensures exists i :: StripsTo(s, i, r)
    ensures |r| > 0 ==> !IsSpace(r[0]) && !IsSpace(r[|r| - 1])
    ensures (forall k :: 0 <= k < |s| ==> IsSpace(s[k])) <==> r == []
  {
    var i := LeadingSpaces(s);
    var j := |s| - TrailingSpaces(s[i..]);
    TrailingOfSlice(s, i);
    StripFacts(s, i, j);
    assert |s[i..j]| > 0 ==> s[i..j][0] == s[i] && s[i..j][j - i - 1] == s[j - 1];
    s[i..j]
  }

  /** What `s` looks like around `s[i..]` once `s[i..]`'s trailing whitespace is measured. */
  lemma TrailingOfSlice(s: string, i: nat)
    requires i <= |s|
    ensures var j := |s| - TrailingSpaces(s[i..]);
      && i <= j
      && (forall k :: j <= k < |s| ==> IsSpace(s[k]))
      && (i < j ==> !IsSpace(s[j - 1]))
  {
    var t := s[i..];
    var n := TrailingSpaces(t);
    forall k | |s| - n <= k < |s|
      ensures IsSpace(s[k])
    {
      assert t[k - i] == s[k];
    }
    if n < |t| {
      assert t[|t| - n - 1] == s[|s| - n - 1];
    }
  }

  /**
   * A slice `s[i..j]` with only whitespace before and after it, and none at
   * its ends, is what `strip()` keeps.
   */
  lemma StripFacts(s: string, i: nat, j: int)
    requires i <= j <= |s|
    requires forall k :: 0 <= k < i ==> IsSpace(s[k])
    requires forall k :: j <= k < |s| ==> IsSpace(s[k])
    requires i < |s| ==> !IsSpace(s[i])
    requires i < j ==> !IsSpace(s[j - 1])
    ensures StripsTo(s, i, s[i..j])
    ensures i < j ==> !IsSpace(s[i]) && !IsSpace(s[j - 1])
    ensures (forall k :: 0 <= k < |s| ==> IsSpace(s[k])) <==> i == j
  {
  }

  /** Whitespace at neither end: stripping changes nothing. */
  lemma StripUnchanged(s: string)
    requires |s| > 0 ==> !IsSpace(s[0]) && !IsSpace(s[|s| - 1])
    ensures Strip(s) == s
  {
  }

  /** Number of occurrences of `c` in `s` (`s.count(c)` for a one-character string). */
  function Count(s: string, c: char): (n: nat)
    ensures n <= |s|
    ensures n == 0 <==> c !in s
  {
    if |s| == 0 then 0 else (if s[0] == c then 1 else 0) + Count(s[1..], c)
  }

  /** `s.split(c)`: the maximal pieces of `s` between occurrences of `c`. */
  function Split(s: string, c: char): (parts: seq<string>)
    ensures |parts| == Count(s, c) + 1
    ensures forall i :: 0 <= i < |parts| ==> c !in parts[i]
  {
    if |s| == 0 then [""]
    else
      var rest := Split(s[1..], c);
      if s[0] == c then [""] + rest
      else [[s[0]] + rest[0]] + rest[1..]
  }

  /** `sep.join(parts)`. */
  function Join(sep: string, parts: seq<string>): string
  {
    if |parts| == 0 then ""
    else if |parts| == 1 then parts[0]
    else parts[0] + sep + Join(sep, parts[1..])
  }

  /** `s.replace(a, b)` for single characters. */
  function Replace(s: string, a: char, b: char): (r: string)
    ensures |r| == |s|
  {
    if |s| == 0 then "" else [if s[0] == a then b else s[0]] + Replace(s[1..], a, b)
  }

  /** `replace` changes exactly the characters equal to `a`, each into `b`. */
  lemma {:induction false} ReplaceAt(s: string, a: char, b: char)
    ensures forall i :: 0 <= i < |s| ==> Replace(s, a, b)[i] == (if s[i] == a then b else s[i])
  {
    if |s| > 0 {
      ReplaceAt(s[1..], a, b);
      var r := Replace(s, a, b);
      assert r[1..] == Replace(s[1..], a, b);
    }
  }

  /** Text without `a` is left as it is. */
  lemma {:induction false} ReplaceAbsent(s: string, a: char, b: char)
    requires a !in s
    ensures Replace(s, a, b) == s
  {
    if |s| > 0 {
      ReplaceAbsent(s[1..], a, b);
      assert s == [s[0]] + s[1..];
    }
  }

  /** `s.ljust(3, '0')[:3]`: exactly three characters, zero-filled on the right. */
  function LJustCut3(s: string): (r: string)
    ensures |r| == 3
    ensures forall i :: 0 <= i < 3 ==> r[i] == (if i < |s| then s[i] else '0')
  {
    if |s| >= 3 then s[..3] else s + seq(3 - |s|, _ => '0')
  }

  // ---------------------------------------------------------------------------
  // Laws relating split and join

  /** Splitting a string without the separator yields the string alone. */
  lemma {:induction false} SplitNoSeparator(s: string, c: char)
    requires c !in s
    ensures Split(s, c) == [s]
  {
    if |s| > 0 {
      SplitNoSeparator(s[1..], c);
      assert [s[0]] + s[1..] == s;
    }
  }

  /** The first piece ends at the first separator. */
  lemma {:induction false} SplitAtSeparator(a: string, c: char, b: string)
    requires c !in a
    ensures Split(a + [c] + b, c) == [a] + Split(b, c)
  {
    var s := a + [c] + b;
    if |a| == 0 {
      assert s == [c] + b;
      assert s[1..] == b;
    } else {
      assert s[0] == a[0] && s[1..] == a[1..] + [c] + b;
      SplitAtSeparator(a[1..], c, b);
      var rest := Split(s[1..], c);
      assert rest[0] == a[1..] && rest[1..] == Split(b, c);
      assert [a[0]] + a[1..] == a;
    }
  }

  /** Joining two non-empty lists joins their joins. */
  lemma {:induction false} JoinAppend(sep: string, xs: seq<string>, ys: seq<string>)
    requires |xs| > 0 && |ys| > 0
    ensures Join(sep, xs + ys) == Join(sep, xs) + sep + Join(sep, ys)
  {
    if |xs| == 1 {
      assert (xs + ys)[1..] == ys;
    } else {
      assert (xs + ys)[1..] == xs[1..] + ys;
      JoinAppend(sep, xs[1..], ys);
    }
  }

  /** Joining the pieces of a split with the separator restores the string. */
  lemma {:induction false} JoinSplit(s: string, c: char)
    ensures Join([c], Split(s, c)) == s
  {
    if |s| > 0 {
      var rest := Split(s[1..], c);
      JoinSplit(s[1..], c);
      if s[0] == c {
        assert Split(s, c) == [""] + rest;
        assert Join([c], [""] + rest) == "" + [c] + Join([c], rest);
        assert s == [c] + s[1..];
      } else {
        assert |rest| >= 1;
        if |rest| == 1 {
          assert Join([c], rest) == rest[0];
          assert Split(s, c) == [[s[0]] + rest[0]];
        } else {
          assert Join([c], rest) == rest[0] + [c] + Join([c], rest[1..]);
          assert Split(s, c) == [[s[0]] + rest[0]] + rest[1..];
          assert Join([c], Split(s, c)) == [s[0]] + rest[0] + [c] + Join([c], rest[1..]);
        }
        assert s == [s[0]] + s[1..];
      }
    }
  }
}
