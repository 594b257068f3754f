/**
  The handful of Python `str` operations the deployer relies on, on
  `string` (a `seq<char>`): `replace(pat, '')`, `split(sep)`, `sep.join(...)`,
  `re.findall` of a literal prefix followed by `_` and one digit, the `%d`,
  `%02d` and `%02x` formats, and slicing with negative bounds.
 */
module Strings {

  // ---------------------------------------------------------------------
  // Occurrence of a pattern

  /** `pat` occurs in `s` starting at index `i`. */
  predicate OccursAt(s: string, pat: string, i: int)
  {
    0 <= i && i + |pat| <= |s| && s[i..i + |pat|] == pat
  }

  /** Python's `pat in s`. */
  predicate Contains(s: string, pat: string)
  {
    exists i | 0 <= i <= |s| :: OccursAt(s, pat, i)
  }

  /** The part of `s` before its first newline: what a regular expression
      made of `.*` can see, since `.` never matches a newline. */
  function FirstLine(s: string): (r: string)
    ensures |r| <= |s| && r == s[..|r|]
    ensures '\n' !in r
    ensures |r| < |s| ==> s[|r|] == '\n'
  {
    if |s| == 0 || s[0] == '\n' then "" else [s[0]] + FirstLine(s[1..])
  }

  // ---------------------------------------------------------------------
  // Subsequences: what is left after deleting characters

  /** `a` is `b` with some characters deleted. */
  predicate IsSubsequence(a: string, b: string)
    decreases |b|
  {
    if |a| == 0 then true
    else if |b| == 0 then false
    else (a[0] == b[0] && IsSubsequence(a[1..], b[1..])) || IsSubsequence(a, b[1..])
  }

  lemma {:induction false} SubsequenceOfSuffix(a: string, b: string, k: nat)
    requires k <= |b| && IsSubsequence(a, b[k..])
    ensures IsSubsequence(a, b)
    decreases k
  {
    if k > 0 {
      assert b[1..][k - 1..] == b[k..];
      SubsequenceOfSuffix(a, b[1..], k - 1);
    }
  }

  lemma {:induction false} SubsequenceReflexive(s: string)
    ensures IsSubsequence(s, s)
    decreases |s|
  {
    if |s| > 0 {
      SubsequenceReflexive(s[1..]);
    }
  }

  lemma {:induction false} SubsequenceTransitive(a: string, b: string, c: string)
    requires IsSubsequence(a, b) && IsSubsequence(b, c)
    ensures IsSubsequence(a, c)
    decreases |c|
  {
    if |a| == 0 {
    } else if IsSubsequence(b, c[1..]) {
      SubsequenceTransitive(a, b, c[1..]);
    } else if a[0] == b[0] && IsSubsequence(a[1..], b[1..]) {
      SubsequenceTransitive(a[1..], b[1..], c[1..]);
    } else {
      SubsequenceTransitive(a, b[1..], c[1..]);
    }
  }

  /** Deleting characters never lengthens a string, and never introduces a
      character that was not there. */
  lemma {:induction false} SubsequenceShrinks(a: string, b: string)
    requires IsSubsequence(a, b)
    ensures |a| <= |b|
    ensures forall x | x in a :: x in b
    decreases |b|
  {
    if |a| == 0 {
    } else if IsSubsequence(a, b[1..]) {
      SubsequenceShrinks(a, b[1..]);
    } else {
      SubsequenceShrinks(a[1..], b[1..]);
      assert forall x | x in a :: x == a[0] || x in a[1..];
    }
  }

  // ---------------------------------------------------------------------
  // str.replace(pat, '')

  /** Python's `s.replace(pat, '')`: the occurrences of `pat` found by a
      left-to-right scan (each search resuming after the previous match)
      are deleted. An empty `pat` leaves `s` as it is. */
  function RemoveAll(s: string, pat: string): string
    decreases |s|
  {
    if |pat| == 0 || |s| < |pat| then s
    else if s[..|pat|] == pat then RemoveAll(s[|pat|..], pat)
    else [s[0]] + RemoveAll(s[1..], pat)
  }

  /** Deleting the occurrences of `pat` only ever deletes characters. */
  lemma {:induction false} RemoveAllSubsequence(s: string, pat: string)
    ensures IsSubsequence(RemoveAll(s, pat), s)
    decreases |s|
  {
    if |pat| == 0 || |s| < |pat| {
      SubsequenceReflexive(s);
    } else if s[..|pat|] == pat {
      RemoveAllSubsequence(s[|pat|..], pat);
      SubsequenceOfSuffix(RemoveAll(s[|pat|..], pat), s, |pat|);
    } else {
      var rest := RemoveAll(s[1..], pat);
      RemoveAllSubsequence(s[1..], pat);
      assert ([s[0]] + rest)[1..] == rest;
    }
  }

  /** Removing a one-character pattern removes every copy of that character. */
  lemma {:induction false} RemoveAllChar(s: string, c: char)
    ensures c !in RemoveAll(s, [c])
    decreases |s|
  {
    if |s| >= 1 {
      RemoveAllChar(s[1..], c);
      if s[..1] == [c] {
        assert s[1..] == s[|[c]|..];
      }
    }
  }

  /** A string in which `pat` does not occur is returned unchanged. */
  lemma {:induction false} RemoveAllAbsent(s: string, pat: string)
    requires !Contains(s, pat)
    ensures RemoveAll(s, pat) == s
    decreases |s|
  {
    if |pat| == 0 || |s| < |pat| {
    } else {
      if s[..|pat|] == pat {
        assert OccursAt(s, pat, 0);
        assert false;
      }
      forall i | 0 <= i <= |s[1..]| && OccursAt(s[1..], pat, i)
        ensures false
      {
        assert s[i + 1..i + 1 + |pat|] == s[1..][i..i + |pat|];
        assert OccursAt(s, pat, i + 1);
      }
      RemoveAllAbsent(s[1..], pat);
      assert s == [s[0]] + s[1..];
    }
  }

  // ---------------------------------------------------------------------
  // str.split(sep) and sep.join(parts)

  /** Python's `s.split(sep)` for a one-character separator: never empty,
      and no part contains the separator. */
  function Split(s: string, sep: char): (parts: seq<string>)
    ensures |parts| >= 1
    ensures forall i | 0 <= i < |parts| :: sep !in parts[i]
    decreases |s|
  {
    if |s| == 0 then [""]
    else
      var rest := Split(s[1..], sep);
      if s[0] == sep then [""] + rest
      else [[s[0]] + rest[0]] + rest[1..]
  }

  /** Python's `sep.join(parts)`. */
  function JoinWith(sep: string, parts: seq<string>): string
    decreases |parts|
  {
    if |parts| == 0 then ""
    else if |parts| == 1 then parts[0]
    else parts[0] + sep + JoinWith(sep, parts[1..])
  }

  /** Splitting and joining back with the same separator is the identity. */
  lemma {:induction false} JoinSplit(s: string, sep: char)
    ensures JoinWith([sep], Split(s, sep)) == s
    decreases |s|
  {
    if |s| > 0 {
      var rest := Split(s[1..], sep);
      JoinSplit(s[1..], sep);
      if s[0] == sep {
        assert ([""] + rest)[1..] == rest;
      } else {
        var parts := [[s[0]] + rest[0]] + rest[1..];
        if |rest| > 1 {
          assert parts[1..] == rest[1..];
          assert JoinWith([sep], rest) == rest[0] + [sep] + JoinWith([sep], rest[1..]);
        }
      }
    }
  }

  // ---------------------------------------------------------------------
  // Python slices with bounds that may be negative

  /** How Python resolves a slice bound `i` on a sequence of length `len`:
      a negative bound counts from the end, and the result is clamped to
      `0..len`. */
  function PyBound(len: nat, i: int): (r: nat)
    ensures r <= len
    ensures 0 <= i <= len ==> r == i
    ensures i < 0 && len + i >= 0 ==> r == len + i
  {
    if i < 0 then (if len + i < 0 then 0 else len + i)
    else if i > len then len else i
  }

  /** Python's `xs[start:stop]`: the elements from the resolved start up to
      the resolved stop, none when the stop comes first. */
  function PySlice<T>(xs: seq<T>, start: int, stop: int): (r: seq<T>)
    ensures |r| <= |xs|
  {
    var lo := PyBound(|xs|, start);
    var hi := PyBound(|xs|, stop);
    if lo <= hi then xs[lo..hi] else []
  }

  /** `xs[0:len(xs) - k]`. A negative stop counts from the end, and one that
      is still negative after that is clamped to 0. */
  function DropLastPy<T>(xs: seq<T>, k: nat): seq<T>
  {
    var stop := |xs| - k;
    var end := if stop >= 0 then stop else if |xs| + stop >= 0 then |xs| + stop else 0;
    xs[..end]
  }

  /** `xs[-k:]`: the last `k` elements, or all of them when there are fewer. */
  function LastPy<T>(xs: seq<T>, k: nat): seq<T>
  {
    if |xs| >= k then xs[|xs| - k..] else xs
  }

  /** With at least `k` elements the two slices cut `xs` in two at
      `|xs| - k`. With fewer, `xs[-k:]` is the whole of `xs` while the stop
      of `xs[0:len(xs) - k]` is counted once more from the end, so the first
      slice keeps `2 * |xs| - k` elements (none when that is negative) and
      the two slices overlap. */
  lemma PySlices<T>(xs: seq<T>, k: nat)
    ensures |xs| >= k ==> DropLastPy(xs, k) + LastPy(xs, k) == xs && |LastPy(xs, k)| == k
    ensures |xs| < k ==>
      LastPy(xs, k) == xs && DropLastPy(xs, k) == xs[..if 2 * |xs| >= k then 2 * |xs| - k else 0]
  {
    if |xs| >= k {
      assert xs[..|xs| - k] + xs[|xs| - k..] == xs;
    }
  }

  /** `DropLastPy` and `LastPy` are the slices `xs[0:len(xs) - k]` and
      `xs[-k:]` (a positive `k`: `xs[-0:]` would be the whole of `xs`). */
  lemma PySliceLast<T>(xs: seq<T>, k: nat)
    requires k >= 1
    ensures DropLastPy(xs, k) == PySlice(xs, 0, |xs| - k)
    ensures LastPy(xs, k) == PySlice(xs, -(k as int), |xs|)
  {
  }

  /** `DropLast2` is the slice `s[0:-2]`. */
  lemma PySliceDropLast2(s: string)
    ensures DropLast2(s) == PySlice(s, 0, -2)
  {
  }

  /** `s[0:-2]` on a string: the string without its last two characters,
      or the empty string when it is shorter than that. */
  function DropLast2(s: string): (r: string)
    ensures |s| >= 2 ==> |r| == |s| - 2 && r == s[..|s| - 2]
    ensures |s| < 2 ==> r == ""
  {
    if |s| >= 2 then s[..|s| - 2] else ""
  }

  // ---------------------------------------------------------------------
  // re.findall("(<key>)(_)([0-9])", text), joined back group by group

  predicate IsDigit(c: char)
  {
    '0' <= c <= '9'
  }

  /** `x` is `key`, an underscore and one decimal digit. */
  predicate IsKeyDigit(x: string, key: string)
  {
    |x| == |key| + 2 && x[..|key|] == key && x[|key|] == '_' && IsDigit(x[|key| + 1])
  }

  /** The matches of `key` `_` digit in `text` found by a left-to-right scan
      that resumes after each match, with the three groups joined, as
      `[''.join(x) for x in re.findall(...)]` yields them when `key` holds
      no regular-expression metacharacter. */
  function FindAll(text: string, key: string): (r: seq<string>)
    ensures forall i | 0 <= i < |r| :: IsKeyDigit(r[i], key) && Contains(text, r[i])
    decreases |text|
  {
    if |text| < |key| + 2 then []
    else if IsKeyDigit(text[..|key| + 2], key) then
      var rest := FindAll(text[|key| + 2..], key);
      assert OccursAt(text, text[..|key| + 2], 0);
      forall i | 0 <= i < |rest| ensures Contains(text, rest[i]) {
        ShiftContains(text, |key| + 2, rest[i]);
      }
      [text[..|key| + 2]] + rest
    else
      var rest := FindAll(text[1..], key);
      forall i | 0 <= i < |rest| ensures Contains(text, rest[i]) {
        ShiftContains(text, 1, rest[i]);
      }
      rest
  }

  lemma ShiftContains(text: string, k: nat, pat: string)
    requires k <= |text| && Contains(text[k..], pat)
    ensures Contains(text, pat)
  {
    var i :| 0 <= i <= |text[k..]| && OccursAt(text[k..], pat, i);
    assert text[k + i..k + i + |pat|] == text[k..][i..i + |pat|];
    assert OccursAt(text, pat, k + i);
  }

  // ---------------------------------------------------------------------
  // Number formats: '%d', '%02d', '%02x'

  function DigitChar(d: nat): (c: char)
    requires d < 10
    ensures IsDigit(c)
  {
    ('0' as int + d) as char
  }

  function DigitValue(c: char): (d: nat)
    requires IsDigit(c)
    ensures d < 10 && DigitChar(d) == c
  {
    (c as int - '0' as int)
  }

  /** `'%d' % n` for a natural number: its decimal digits, most significant first. */
  function Dec(n: nat): (r: string)
    ensures |r| >= 1
    ensures forall i | 0 <= i < |r| :: IsDigit(r[i])
    decreases n
  {
    if n < 10 then [DigitChar(n)] else Dec(n / 10) + [DigitChar(n % 10)]
  }

  /** The value of a string of decimal digits. */
  function ParseDec(s: string): nat
    requires forall i | 0 <= i < |s| :: IsDigit(s[i])
    decreases |s|
  {
    if |s| == 0 then 0 else ParseDec(s[..|s| - 1]) * 10 + DigitValue(s[|s| - 1])
  }

  /** Reading back the decimal form of `n` gives `n`. */
  lemma {:induction false} ParseDecDec(n: nat)
    ensures ParseDec(Dec(n)) == n
    decreases n
  {
    if n >= 10 {
      var s := Dec(n);
      assert s[..|s| - 1] == Dec(n / 10);
      ParseDecDec(n / 10);
    }
  }

  /** Distinct numbers have distinct decimal forms. */
  lemma DecInjective(a: nat, b: nat)
    requires a != b
    ensures Dec(a) != Dec(b)
  {
    ParseDecDec(a);
    ParseDecDec(b);
  }

  /** Only zero is written with a leading '0'. */
  lemma {:induction false} DecLeadingZero(n: nat)
    ensures Dec(n)[0] == '0' <==> n == 0
    decreases n
  {
    if n >= 10 {
      DecLeadingZero(n / 10);
    }
  }

  /** `'%02d' % n`: at least two digits, padded on the left with '0'. From
      10 on it is the plain decimal form, so only a one-digit number gets a
      leading '0'. */
  function Pad2(n: nat): (r: string)
    ensures |r| >= 2
    ensures forall i | 0 <= i < |r| :: IsDigit(r[i])
    ensures n < 100 ==> |r| == 2
    ensures ParseDec(r) == n
    ensures n >= 10 ==> r == Dec(n)
    ensures r[0] == '0' <==> n < 10
  {
    ParseDecDec(n);
    DecLeadingZero(n);
    if n < 10 then
      var r := "0" + Dec(n);
      assert r[..|r| - 1] == "0";
      assert ParseDec("0") == 0 by { assert "0"[..0] == ""; }
      r
    else
      assert n / 10 < 10 ==> |Dec(n / 10)| == 1;
      Dec(n)
  }

  /** Two digits are the `%02d` form of the number they spell. */
  lemma Pad2TwoDigits(t: string)
    requires |t| == 2 && IsDigit(t[0]) && IsDigit(t[1])
    ensures ParseDec(t) < 100 && Pad2(ParseDec(t)) == t
  {
    assert t[..1][..0] == "";
    assert ParseDec(t[..1]) == DigitValue(t[0]);
    var n := ParseDec(t);
    assert n == DigitValue(t[0]) * 10 + DigitValue(t[1]);
    if DigitValue(t[0]) == 0 {
      assert Dec(n) == [t[1]];
    } else {
      assert n / 10 == DigitValue(t[0]) && n % 10 == DigitValue(t[1]);
      assert Dec(n) == Dec(n / 10) + [t[1]] == [t[0], t[1]];
    }
  }

  /** Distinct numbers have distinct `%02d` forms. */
  lemma Pad2Injective(a: nat, b: nat)
    requires a != b
    ensures Pad2(a) != Pad2(b)
  {
  }

  /** A lower-case hexadecimal digit, as `%x` writes them. */
  predicate IsLowerHex(c: char)
  {
    '0' <= c <= '9' || 'a' <= c <= 'f'
  }

  function HexDigit(d: nat): (c: char)
    requires d < 16
    ensures IsLowerHex(c)
  {
    if d < 10 then ('0' as int + d) as char else ('a' as int + d - 10) as char
  }

  function HexValue(c: char): (d: nat)
    requires IsLowerHex(c)
    ensures d < 16 && HexDigit(d) == c
  {
    if '0' <= c <= '9' then c as int - '0' as int else c as int - 'a' as int + 10
  }

  /** `'%02x' % b` for a byte: two lower-case hexadecimal digits, which read
      back as `b`. */
  function Hex2(b: nat): (r: string)
    requires b < 256
    ensures |r| == 2 && IsLowerHex(r[0]) && IsLowerHex(r[1])
    ensures HexValue(r[0]) * 16 + HexValue(r[1]) == b
  {
    [HexDigit(b / 16), HexDigit(b % 16)]
  }

  // ---------------------------------------------------------------------
  // Sequences without repetitions

  predicate Distinct<T(==)>(s: seq<T>)
  {
    forall i, j | 0 <= i < j < |s| :: s[i] != s[j]
  }
}
