/** The few operations on Python `str` values that the modelled scripts rely on:
    `strip()`, `lower()`, `in`, `startswith`, `split(sep)`, `sep.join(...)`,
    `str(n)` for a natural number and `int(s)`. */
module Strings {
  import opened Wrappers
  import opened Seqs

  /** Python's `str.isspace()` for one character (the characters with the
      Unicode White_Space bidirectional classes that Python strips). */
  predicate IsSpace(c: char)
  {
    || c == ' '
    || ('\U{9}' <= c <= '\U{D}')
    || ('\U{1C}' <= c <= '\U{1F}')
    || c == '\U{85}' || c == '\U{A0}' || c == '\U{1680}'
    || ('\U{2000}' <= c <= '\U{200A}')
    || c == '\U{2028}' || c == '\U{2029}' || c == '\U{202F}' || c == '\U{205F}' || c == '\U{3000}'
  }

  predicate NoSpace(s: string)
  {
    forall i :: 0 <= i < |s| ==> !IsSpace(s[i])
  }

  /** `s.strip()`: white space removed from both ends. */
  function Strip(s: string): (r: string)
    ensures |r| <= |s|
    ensures r == [] || (!IsSpace(r[0]) && !IsSpace(r[|r| - 1]))
  {
    if |s| > 0 && IsSpace(s[0]) then Strip(s[1..])
    else if |s| > 0 && IsSpace(s[|s| - 1]) then Strip(s[..|s| - 1])
    else s
  }

  /** Text without white space is left as it is. */
  lemma StripNoSpace(s: string)
    requires NoSpace(s)
    ensures Strip(s) == s
  {
  }

  /** `str.lower()` on ASCII letters; every other character is kept. */
  function LowerChar(c: char): (d: char)
    ensures ('A' <= c <= 'Z') ==> 'a' <= d <= 'z'
    ensures !('A' <= c <= 'Z') ==> d == c
  {
    if 'A' <= c <= 'Z' then (c as int - 'A' as int + 'a' as int) as char else c
  }

  function Lower(s: string): (r: string)
  {
    seq(|s|, i requires 0 <= i < |s| => LowerChar(s[i]))
  }

  lemma LowerSlice(s: string, a: nat, b: nat)
    requires a <= b <= |s|
    ensures Lower(s[a..b]) == Lower(s)[a..b]
  {
    assert |Lower(s[a..b])| == |Lower(s)[a..b]|;
    forall i | 0 <= i < b - a
      ensures Lower(s[a..b])[i] == Lower(s)[a..b][i]
    {
    }
  }

  /** `pat` occurs in `s` starting at index `i`. */
  predicate OccursAt(s: string, pat: string, i: int)
  {
    0 <= i <= |s| - |pat| && forall k :: 0 <= k < |pat| ==> s[i + k] == pat[k]
  }

  /** Python's `pat in s` for strings. */
  predicate Contains(s: string, pat: string)
  {
    exists i :: 0 <= i <= |s| - |pat| && OccursAt(s, pat, i)
  }

  /** Python's `s.startswith(p)`. */
  predicate StartsWith(s: string, p: string)
  {
    |p| <= |s| && s[..|p|] == p
  }

  /** Dropping a leading white-space character does not change whether a
      pattern that starts with a non-space character occurs. */
  lemma ContainsDropFirst(t: string, pat: string)
    requires |t| > 0 && IsSpace(t[0])
    requires |pat| > 0 && !IsSpace(pat[0])
    ensures Contains(t[1..], pat) <==> Contains(t, pat)
  {
    if Contains(t, pat) {
      var i :| 0 <= i <= |t| - |pat| && OccursAt(t, pat, i);
      assert t[i] == pat[0];
      assert OccursAt(t[1..], pat, i - 1);
    }
    if Contains(t[1..], pat) {
      var j :| 0 <= j <= |t[1..]| - |pat| && OccursAt(t[1..], pat, j);
      assert OccursAt(t, pat, j + 1);
    }
  }

  /** Dropping a trailing white-space character does not change whether a
      pattern that ends with a non-space character occurs. */
  lemma ContainsDropLast(t: string, pat: string)
    requires |t| > 0 && IsSpace(t[|t| - 1])
    requires |pat| > 0 && !IsSpace(pat[|pat| - 1])
    ensures Contains(t[..|t| - 1], pat) <==> Contains(t, pat)
  {
    if Contains(t, pat) {
      var i :| 0 <= i <= |t| - |pat| && OccursAt(t, pat, i);
      assert t[i + |pat| - 1] == pat[|pat| - 1];
      assert OccursAt(t[..|t| - 1], pat, i);
    }
    if Contains(t[..|t| - 1], pat) {
      var j :| 0 <= j <= |t| - 1 - |pat| && OccursAt(t[..|t| - 1], pat, j);
      assert OccursAt(t, pat, j);
    }
  }

  /** Stripping and lower-casing do not change which white-space-free
      patterns occur in a text (as long as the pattern is already lower-case). */
  lemma {:induction false} ContainsLowerStrip(s: string, pat: string)
    requires |pat| > 0 && NoSpace(pat)
    ensures Contains(Lower(Strip(s)), pat) <==> Contains(Lower(s), pat)
    decreases |s|
  {
    assert !IsSpace(pat[0]) && !IsSpace(pat[|pat| - 1]);
    if |s| > 0 && IsSpace(s[0]) {
      assert Strip(s) == Strip(s[1..]);
      ContainsLowerStrip(s[1..], pat);
      LowerSlice(s, 1, |s|);
      assert s[1..|s|] == s[1..] && Lower(s)[1..|s|] == Lower(s)[1..];
      assert Lower(s)[0] == s[0];
      ContainsDropFirst(Lower(s), pat);
    } else if |s| > 0 && IsSpace(s[|s| - 1]) {
      assert Strip(s) == Strip(s[..|s| - 1]);
      ContainsLowerStrip(s[..|s| - 1], pat);
      LowerSlice(s, 0, |s| - 1);
      assert s[0..|s| - 1] == s[..|s| - 1] && Lower(s)[0..|s| - 1] == Lower(s)[..|s| - 1];
      assert Lower(s)[|s| - 1] == s[|s| - 1];
      ContainsDropLast(Lower(s), pat);
    }
  }

  /** Every character of `Strip(s)` is a character of `s`. */
  lemma {:induction false} StripInside(s: string)
    ensures forall c :: c in Strip(s) ==> c in s
    decreases |s|
  {
    if |s| > 0 && IsSpace(s[0]) {
      StripInside(s[1..]);
    } else if |s| > 0 && IsSpace(s[|s| - 1]) {
      StripInside(s[..|s| - 1]);
    }
  }

  /** Stripping twice is stripping once. */
  lemma StripIdempotent(s: string)
    ensures Strip(Strip(s)) == Strip(s)
  {
  }

  /** Index of the first occurrence of `c` in `s`. */
  function IndexOf(s: string, c: char): (i: nat)
    requires c in s
    ensures i < |s| && s[i] == c && c !in s[..i]
  {
    if s[0] == c then 0 else 1 + IndexOf(s[1..], c)
  }

  /** `sep.join(parts)` */
  function Join(parts: seq<string>, sep: string): string
  {
    if |parts| == 0 then ""
    else if |parts| == 1 then parts[0]
    else parts[0] + sep + Join(parts[1..], sep)
  }

  /** `s.split(sep)` for a one-character separator: the pieces between the
      separators, always at least one. */
  function Split(s: string, sep: char): (parts: seq<string>)
    ensures |parts| >= 1
    decreases |s|
  {
    if sep !in s then [s]
    else
      var i := IndexOf(s, sep);
      [s[..i]] + Split(s[i + 1..], sep)
  }

  /** No piece holds the separator. */
  lemma {:induction false} SplitPartsFree(s: string, sep: char)
    ensures forall k :: 0 <= k < |Split(s, sep)| ==> sep !in Split(s, sep)[k]
    decreases |s|
  {
    if sep in s {
      var i := IndexOf(s, sep);
      SplitPartsFree(s[i + 1..], sep);
      var rest := Split(s[i + 1..], sep);
      assert forall k :: 1 <= k < |Split(s, sep)| ==> Split(s, sep)[k] == rest[k - 1];
    }
  }

  /** Joining the pieces back with the separator gives `s`. */
  lemma {:induction false} SplitJoinBack(s: string, sep: char)
    ensures Join(Split(s, sep), [sep]) == s
    decreases |s|
  {
    if sep in s {
      var i := IndexOf(s, sep);
      SplitJoinBack(s[i + 1..], sep);
      var parts := Split(s, sep);
      assert parts[1..] == Split(s[i + 1..], sep);
      assert s == s[..i] + [sep] + s[i + 1..];
    }
  }

  /** There is one piece more than there are separators. */
  lemma {:induction false} SplitCount(s: string, sep: char)
    ensures |Split(s, sep)| == Count(s, sep) + 1
    decreases |s|
  {
    if sep in s {
      var i := IndexOf(s, sep);
      SplitCount(s[i + 1..], sep);
      assert s == s[..i] + [sep] + s[i + 1..];
      CountAppend(s[..i] + [sep], s[i + 1..], sep);
      CountAppend(s[..i], [sep], sep);
      CountPositive(s[..i], sep);
      assert Count([sep], sep) == 1 by {
        assert [sep][..0] == [];
      }
    } else {
      CountPositive(s, sep);
    }
  }

  /** Splitting a joined list gives the list back when no part holds the separator. */
  lemma {:induction false} SplitJoin(parts: seq<string>, sep: char)
    requires |parts| >= 1
    requires forall k :: 0 <= k < |parts| ==> sep !in parts[k]
    ensures Split(Join(parts, [sep]), sep) == parts
    decreases |parts|
  {
    if |parts| == 1 {
    } else {
      var s := Join(parts, [sep]);
      var tail := Join(parts[1..], [sep]);
      assert s == parts[0] + [sep] + tail;
      assert s[|parts[0]|] == sep;
      assert sep in s;
      var i := IndexOf(s, sep);
      assert s[..|parts[0]|] == parts[0];
      assert i == |parts[0]|;
      assert s[..i] == parts[0];
      assert s[i + 1..] == tail;
      SplitJoin(parts[1..], sep);
    }
  }

  predicate IsDigit(c: char)
  {
    '0' <= c <= '9'
  }

  predicate AllDigits(s: string)
  {
    forall i :: 0 <= i < |s| ==> IsDigit(s[i])
  }

  function DigitChar(d: nat): (c: char)
    requires d < 10
    ensures IsDigit(c)
  {
    ('0' as int + d) as char
  }

  function DigitValue(c: char): (d: nat)
    requires IsDigit(c)
    ensures d < 10 && DigitChar(d) == c
  {
    c as int - '0' as int
  }

  /** `str(n)` for a natural number: its decimal digits, most significant first. */
  function NatToString(n: nat): (s: string)
    ensures |s| >= 1 && AllDigits(s)
  {
    if n < 10 then [DigitChar(n)] else NatToString(n / 10) + [DigitChar(n % 10)]
  }

  /** Digits as Python's `int()` accepts them: ASCII digits, with single
      underscores allowed between two digits. */
  predicate DigitGroups(s: string)
    decreases |s|
  {
    |s| > 0 && IsDigit(s[0]) &&
    (|s| == 1 || (if s[1] == '_' then |s| > 2 && DigitGroups(s[2..]) else DigitGroups(s[1..])))
  }

  /** The value of the digits of `s`, underscores skipped. */
  function DigitsValue(s: string): nat
  {
    if s == [] then 0
    else if IsDigit(s[|s| - 1]) then 10 * DigitsValue(s[..|s| - 1]) + DigitValue(s[|s| - 1])
    else DigitsValue(s[..|s| - 1])
  }

  /** Python's `int(s)` on a base-10 string: surrounding white space is ignored,
      an optional sign is followed by digit groups; anything else raises
      `ValueError`, modelled as `None`. */
  function ParseInt(s: string): (r: Option<int>)
  {
    var t := Strip(s);
    if |t| > 0 && (t[0] == '+' || t[0] == '-') then
      if DigitGroups(t[1..]) then
        Some(if t[0] == '-' then -(DigitsValue(t[1..]) as int) else DigitsValue(t[1..]))
      else None
    else if DigitGroups(t) then Some(DigitsValue(t))
    else None
  }

  lemma {:induction false} AllDigitsGroups(s: string)
    requires |s| >= 1 && AllDigits(s)
    ensures DigitGroups(s)
    decreases |s|
  {
    if |s| > 1 {
      AllDigitsGroups(s[1..]);
    }
  }

  lemma {:induction false} NatToStringValue(n: nat)
    ensures DigitsValue(NatToString(n)) == n
  {
    var s := NatToString(n);
    if n >= 10 {
      assert s[..|s| - 1] == NatToString(n / 10);
      NatToStringValue(n / 10);
    }
  }

  /** `int(str(n)) == n` */
  lemma ParseIntNatToString(n: nat)
    ensures ParseInt(NatToString(n)) == Some(n)
  {
    var s := NatToString(n);
    assert NoSpace(s) by {
      forall i | 0 <= i < |s| ensures !IsSpace(s[i]) {
        assert IsDigit(s[i]);
      }
    }
    StripNoSpace(s);
    AllDigitsGroups(s);
    NatToStringValue(n);
  }
}
