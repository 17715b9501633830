/**
 * The Python string primitives the chat tools depend on: `str.strip()`,
 * `str.split(sep)`, `int(text)` and the decimal rendering of integers
 * (`str(n)`, `"%d"`, `"%02d"`).
 */
module Text {
  import opened Wrappers

  /** Python's `str.isspace()` for one character: the complete list of characters it accepts. */
  predicate IsSpace(c: char) {
    c == ' ' || ('\t' <= c <= '\r') || ('\U{1C}' <= c <= '\U{1F}') || c == '\U{85}' || c == '\U{A0}'
    || c == '\U{1680}' || ('\U{2000}' <= c <= '\U{200A}') || c == '\U{2028}' || c == '\U{2029}'
    || c == '\U{202F}' || c == '\U{205F}' || c == '\U{3000}'
  }

  predicate IsDigit(c: char) {
    '0' <= c <= '9'
  }

  function DigitValue(c: char): nat
    requires IsDigit(c)
  {
    c as int - '0' as int
  }

  function DigitChar(d: nat): (c: char)
    requires d < 10
    ensures IsDigit(c) && DigitValue(c) == d
  {
    ('0' as int + d) as char
  }

  // ---------------------------------------------------------------- strip

  /**
   * The whitespace `int()` skips around its literal: the `str.isspace()` set
   * without the four ASCII separators U+001C to U+001F, which `int()` does
   * not treat as whitespace.
   */
  predicate IsIntSpace(c: char) {
    IsSpace(c) && !('\U{1C}' <= c <= '\U{1F}')
  }

  /** The characters from the first one outside `space` on. */
  function TrimLeft(s: string, space: char -> bool): (r: string)
    ensures |r| <= |s|
    ensures r == [] || !space(r[0])
  {
    if |s| > 0 && space(s[0]) then TrimLeft(s[1..], space) else s
  }

  /** The characters up to the last one outside `space`. */
  function TrimRight(s: string, space: char -> bool): (r: string)
    ensures |r| <= |s|
    ensures r == [] || !space(r[|r| - 1])
  {
    if |s| > 0 && space(s[|s| - 1]) then TrimRight(s[..|s| - 1], space) else s
  }

  /** Leading and trailing characters of `space` removed, nothing else touched. */
  function StripBy(s: string, space: char -> bool): string
  {
    TrimRight(TrimLeft(s, space), space)
  }

  /** `s.strip()`: leading and trailing whitespace removed, nothing else touched. */
  function Strip(s: string): string
  {
    StripBy(s, IsSpace)
  }

  /** The whitespace `int()` ignores around its literal removed. */
  function IntStrip(s: string): string
  {
    StripBy(s, IsIntSpace)
  }

  /** The stripped text is no longer, and has no whitespace left at either end. */
  lemma StripEnds(s: string)
    ensures |Strip(s)| <= |s|
    ensures Strip(s) == [] || (!IsSpace(Strip(s)[0]) && !IsSpace(Strip(s)[|Strip(s)| - 1]))
  {
    TrimRightDropsSpaces(TrimLeft(s, IsSpace), IsSpace);
  }

  /** Only characters of `space` are dropped at the left. */
  lemma {:induction false} TrimLeftDropsSpaces(s: string, space: char -> bool)
    ensures TrimLeft(s, space) == s[|s| - |TrimLeft(s, space)|..]
    ensures forall i :: 0 <= i < |s| - |TrimLeft(s, space)| ==> space(s[i])
  {
    if |s| > 0 && space(s[0]) {
      TrimLeftDropsSpaces(s[1..], space);
    }
  }

  /** Only characters of `space` are dropped at the right. */
  lemma {:induction false} TrimRightDropsSpaces(s: string, space: char -> bool)
    ensures TrimRight(s, space) == s[..|TrimRight(s, space)|]
    ensures forall i :: |TrimRight(s, space)| <= i < |s| ==> space(s[i])
  {
    if |s| > 0 && space(s[|s| - 1]) {
      TrimRightDropsSpaces(s[..|s| - 1], space);
    }
  }

  /** The stripped text is the slice s[i..j], where i characters are dropped at the left and |s| - j at the right. */
  lemma StripBySlice(s: string, space: char -> bool)
    ensures |s| - |TrimLeft(s, space)| + |StripBy(s, space)| <= |s|
    ensures StripBy(s, space) == s[|s| - |TrimLeft(s, space)|..|s| - |TrimLeft(s, space)| + |StripBy(s, space)|]
    ensures forall k :: 0 <= k < |s| - |TrimLeft(s, space)| ==> space(s[k])
    ensures forall k :: |s| - |TrimLeft(s, space)| + |StripBy(s, space)| <= k < |s| ==> space(s[k])
  {
    var l := TrimLeft(s, space);
    var r := TrimRight(l, space);
    TrimLeftDropsSpaces(s, space);
    TrimRightDropsSpaces(l, space);
    var i := |s| - |l|;
    assert r == s[i..i + |r|];
    forall k | i + |r| <= k < |s|
      ensures space(s[k])
    {
      assert s[k] == l[k - i];
    }
  }

  /** A string without characters of `space` at either end is left as it is. */
  lemma {:induction false} StripByUnpadded(s: string, space: char -> bool)
    requires s == [] || (!space(s[0]) && !space(s[|s| - 1]))
    ensures StripBy(s, space) == s
  {
    assert TrimLeft(s, space) == s;
    assert TrimRight(s, space) == s;
  }

  /** Stripping keeps every character that is not whitespace. */
  lemma {:induction false} StripKeeps(s: string, c: char)
    requires c in s && !IsSpace(c)
    ensures c in Strip(s)
  {
    StripBySlice(s, IsSpace);
    var i := |s| - |TrimLeft(s, IsSpace)|;
    var r := StripBy(s, IsSpace);
    assert r == s[i..i + |r|];
    var k :| 0 <= k < |s| && s[k] == c;
    assert i <= k < i + |r|;
    assert r[k - i] == c;
  }

  /** Stripping only removes characters. */
  lemma StripChars(s: string)
    ensures forall c :: c in Strip(s) ==> c in s
  {
    var l := TrimLeft(s, IsSpace);
    TrimLeftDropsSpaces(s, IsSpace);
    TrimRightDropsSpaces(l, IsSpace);
    assert Strip(s) == l[..|Strip(s)|];
    assert forall c :: c in l ==> c in s;
  }

  /** The stripped text is one contiguous slice of the original, with only whitespace outside it. */
  lemma StripSlice(s: string)
    ensures exists i, j ::
              && 0 <= i <= j <= |s| && Strip(s) == s[i..j]
              && (forall k :: 0 <= k < i ==> IsSpace(s[k]))
              && (forall k :: j <= k < |s| ==> IsSpace(s[k]))
  {
    StripBySlice(s, IsSpace);
    var i := |s| - |TrimLeft(s, IsSpace)|;
    assert Strip(s) == s[i..i + |Strip(s)|];
  }

  /** A string without whitespace at either end is left as it is. */
  lemma {:induction false} StripUnpadded(s: string)
    requires s == [] || (!IsSpace(s[0]) && !IsSpace(s[|s| - 1]))
    ensures Strip(s) == s
  {
    StripByUnpadded(s, IsSpace);
  }

  // ---------------------------------------------------------------- split

  /** `sep.join(parts)`. */
  function Join(parts: seq<string>, sep: char): string
  {
    if |parts| == 0 then []
    else if |parts| == 1 then parts[0]
    else parts[0] + [sep] + Join(parts[1..], sep)
  }

  /** `s.split(sep)`: always at least one part, and no part holds the separator. */
  function Split(s: string, sep: char): (parts: seq<string>)
    ensures |parts| >= 1
    ensures forall i :: 0 <= i < |parts| ==> sep !in parts[i]
  {
    if s == [] then [[]]
    else
      var rest := Split(s[1..], sep);
      if s[0] == sep then [[]] + rest
      else [[s[0]] + rest[0]] + rest[1..]
  }

  /** Joining the parts of a split with the same separator restores the text. */
  lemma {:induction false} JoinSplit(s: string, sep: char)
    ensures Join(Split(s, sep), sep) == s
  {
    if s != [] {
      var rest := Split(s[1..], sep);
      JoinSplit(s[1..], sep);
      if s[0] == sep {
        assert ([[]] + rest)[1..] == rest;
      } else {
        var parts := [[s[0]] + rest[0]] + rest[1..];
        if |rest| > 1 {
          assert parts[1..] == rest[1..];
          assert Join(rest, sep) == rest[0] + [sep] + Join(rest[1..], sep);
        }
        assert s == [s[0]] + s[1..];
      }
    }
  }

  /** Splitting a join of separator-free parts gives the parts back. */
  lemma {:induction false} SplitJoin(parts: seq<string>, sep: char)
    requires |parts| >= 1
    requires forall i :: 0 <= i < |parts| ==> sep !in parts[i]
    ensures Split(Join(parts, sep), sep) == parts
  {
    if |parts| == 1 {
      SplitNoSeparator(parts[0], sep);
    } else {
      var j := Join(parts[1..], sep);
      SplitJoin(parts[1..], sep);
      assert Split(j, sep) == parts[1..];
      assert ([sep] + j)[1..] == j;
      assert Split([sep] + j, sep) == [[]] + parts[1..];
      SplitPrefix(parts[0], [sep] + j, sep);
      assert Join(parts, sep) == parts[0] + ([sep] + j);
      assert parts[0] + [] == parts[0];
      assert parts == [parts[0]] + parts[1..];
    }
  }

  lemma {:induction false} SplitNoSeparator(s: string, sep: char)
    requires sep !in s
    ensures Split(s, sep) == [s]
  {
    if s != [] {
      SplitNoSeparator(s[1..], sep);
      assert [s[0]] + s[1..] == s;
    }
  }

  /** A separator-free prefix ends up at the front of the first part. */
  lemma {:induction false} SplitPrefix(a: string, b: string, sep: char)
    requires sep !in a
    ensures Split(a + b, sep) == [a + Split(b, sep)[0]] + Split(b, sep)[1..]
  {
    if a != [] {
      var p := Split(b, sep);
      var q := Split(a[1..] + b, sep);
      SplitPrefix(a[1..], b, sep);
      assert q[0] == a[1..] + p[0] && q[1..] == p[1..];
      assert a + b == [a[0]] + (a[1..] + b);
      SplitCons(a[0], a[1..] + b, sep);
      assert [a[0]] + q[0] == a + p[0];
    } else {
      var p := Split(b, sep);
      assert a + b == b && a + p[0] == p[0];
      assert p == [p[0]] + p[1..];
    }
  }

  /** A character other than the separator joins the first part. */
  lemma SplitCons(c: char, s: string, sep: char)
    requires c != sep
    ensures Split([c] + s, sep) == [[c] + Split(s, sep)[0]] + Split(s, sep)[1..]
  {
    assert ([c] + s)[1..] == s;
  }

  // ---------------------------------------------------------------- int()

  /** The digits of a base-10 literal as `int()` reads them: single underscores only between digits. */
  predicate IsDigitGroup(d: string) {
    && |d| > 0 && IsDigit(d[0]) && IsDigit(d[|d| - 1])
    && (forall i :: 0 <= i < |d| ==> IsDigit(d[i]) || d[i] == '_')
    && NoDoubleUnderscore(d)
  }

  predicate NoDoubleUnderscore(d: string) {
    |d| < 2 || (!(d[0] == '_' && d[1] == '_') && NoDoubleUnderscore(d[1..]))
  }

  /** The value of a run of digits and underscores, the underscores ignored. */
  function GroupValue(d: string): nat
    requires forall i :: 0 <= i < |d| ==> IsDigit(d[i]) || d[i] == '_'
  {
    if d == [] then 0
    else if d[|d| - 1] == '_' then GroupValue(d[..|d| - 1])
    else GroupValue(d[..|d| - 1]) * 10 + DigitValue(d[|d| - 1])
  }

  /**
   * The most digits `int()` converts from decimal text: CPython's default
   * `sys.get_int_max_str_digits()` (from 3.11 on, and in the 3.7 to 3.10
   * security releases). Longer literals raise ValueError.
   */
  const MaxStrDigits: nat := 4300

  /** The number of decimal digits in a text; underscores, signs and anything else are not counted. */
  function DigitCount(d: string): (n: nat)
    ensures n <= |d|
  {
    if d == [] then 0 else (if IsDigit(d[0]) then 1 else 0) + DigitCount(d[1..])
  }

  /**
   * `int(text)` in base 10: the whitespace `int()` skips ignored, an optional
   * sign, then a digit group of at most MaxStrDigits digits; anything else
   * raises ValueError, here `None`.
   */
  function ParseInt(text: string): (r: Option<int>)
  {
    var t := IntStrip(text);
    if |t| > 0 && (t[0] == '+' || t[0] == '-') then
      if IsDigitGroup(t[1..]) && DigitCount(t[1..]) <= MaxStrDigits then
        var v: int := GroupValue(t[1..]);
        Some(if t[0] == '-' then -v else v)
      else None
    else if IsDigitGroup(t) && DigitCount(t) <= MaxStrDigits then Some(GroupValue(t))
    else None
  }

  /** Text that `int()` accepts holds only digits, underscores, signs and the whitespace `int()` skips. */
  lemma ParseIntChars(text: string)
    ensures ParseInt(text).Some? ==>
              forall c :: c in text ==> IsDigit(c) || c == '_' || c == '+' || c == '-' || IsIntSpace(c)
  {
    var t := IntStrip(text);
    StripBySlice(text, IsIntSpace);
    var i := |text| - |TrimLeft(text, IsIntSpace)|;
    if ParseInt(text).Some? {
      forall k | 0 <= k < |text| && !IsIntSpace(text[k])
        ensures IsDigit(text[k]) || text[k] == '_' || text[k] == '+' || text[k] == '-'
      {
        assert i <= k < i + |t|;
        assert text[k] == t[k - i];
      }
    }
  }

  /** Adjacent underscores appear nowhere in a digit group. */
  lemma {:induction false} NoDoubleUnderscoreAt(d: string, i: nat)
    requires NoDoubleUnderscore(d) && i + 1 < |d|
    ensures !(d[i] == '_' && d[i + 1] == '_')
  {
    if i > 0 {
      NoDoubleUnderscoreAt(d[1..], i - 1);
    }
  }

  /**
   * `int()` raises ValueError on blank text, on an underscore at either end
   * or right after the sign, on a doubled sign and on a doubled underscore.
   */
  lemma ParseIntRejects(text: string)
    ensures IntStrip(text) == [] ==> ParseInt(text) == None
    ensures |IntStrip(text)| > 0 && IntStrip(text)[|IntStrip(text)| - 1] == '_' ==> ParseInt(text) == None
    ensures |IntStrip(text)| > 0 && IntStrip(text)[0] == '_' ==> ParseInt(text) == None
    ensures (&& |IntStrip(text)| > 1
             && (IntStrip(text)[0] == '+' || IntStrip(text)[0] == '-')
             && (IntStrip(text)[1] == '+' || IntStrip(text)[1] == '-' || IntStrip(text)[1] == '_'))
            ==> ParseInt(text) == None
    ensures forall i :: 0 <= i < |IntStrip(text)| - 1 && IntStrip(text)[i] == '_' && IntStrip(text)[i + 1] == '_' ==> ParseInt(text) == None
  {
    var t := IntStrip(text);
    forall i | 0 <= i < |t| - 1 && t[i] == '_' && t[i + 1] == '_'
      ensures ParseInt(text) == None
    {
      if t[0] == '+' || t[0] == '-' {
        if IsDigitGroup(t[1..]) {
          assert i > 0;
          NoDoubleUnderscoreAt(t[1..], i - 1);
        }
      } else if IsDigitGroup(t) {
        NoDoubleUnderscoreAt(t, i);
      }
    }
  }

  /**
   * A separator U+001C to U+001F at either end makes `int()` fail, although
   * `str.strip()` would remove it: `int("\x1c1")` raises ValueError.
   */
  lemma ParseIntSeparator(text: string)
    requires |text| > 0
    requires ('\U{1C}' <= text[0] <= '\U{1F}') || ('\U{1C}' <= text[|text| - 1] <= '\U{1F}')
    ensures ParseInt(text) == None
  {
    var t := IntStrip(text);
    StripBySlice(text, IsIntSpace);
    var i := |text| - |TrimLeft(text, IsIntSpace)|;
    if '\U{1C}' <= text[0] <= '\U{1F}' {
      assert i == 0;
      assert t[0] == text[0];
    } else {
      assert i + |t| == |text|;
      assert t[|t| - 1] == text[|text| - 1];
    }
  }

  /** A stripped text has nothing left for `int()` to skip. */
  lemma IntStripAfterStrip(s: string)
    ensures IntStrip(Strip(s)) == Strip(s)
  {
    StripEnds(s);
    StripByUnpadded(Strip(s), IsIntSpace);
  }

  // ---------------------------------------------------------------- str(n)

  /** `str(n)` for a natural number. */
  function NatToString(n: nat): (s: string)
    ensures |s| >= 1 && forall i :: 0 <= i < |s| ==> IsDigit(s[i])
    ensures GroupValue(s) == n
  {
    if n < 10 then
      assert [DigitChar(n)][..0] == [];
      [DigitChar(n)]
    else
      var p := NatToString(n / 10);
      var s := p + [DigitChar(n % 10)];
      assert s[..|s| - 1] == p;
      s
  }

  /** `"%d" % n` for any integer. */
  function IntToString(n: int): string
  {
    if n < 0 then "-" + NatToString(-n) else NatToString(n)
  }

  /** `"%02d" % n` for 0 <= n < 100. */
  function Pad2(n: nat): (s: string)
    requires n < 100
    ensures |s| == 2 && IsDigit(s[0]) && IsDigit(s[1])
    ensures GroupValue(s) == n
  {
    if n < 10 then
      var s := ['0', DigitChar(n)];
      assert s[..1] == ['0'] && ['0'][..0] == [];
      s
    else
      var s := NatToString(n);
      assert |s| == 2 by {
        assert |NatToString(n / 10)| == 1;
      }
      s
  }

  /** `int()` reads back every all-digit rendering, leading zeros included, up to MaxStrDigits digits. */
  lemma ParseDigits(s: string)
    requires |s| >= 1 && forall i :: 0 <= i < |s| ==> IsDigit(s[i])
    ensures ParseInt(s) == if |s| <= MaxStrDigits then Some(GroupValue(s)) else None
  {
    assert !IsIntSpace(s[0]) && !IsIntSpace(s[|s| - 1]);
    StripByUnpadded(s, IsIntSpace);
    assert s[0] != '+' && s[0] != '-';
    DigitsHaveNoUnderscore(s);
    DigitCountAll(s);
    assert IsDigitGroup(s);
  }

  lemma {:induction false} DigitsHaveNoUnderscore(s: string)
    requires forall i :: 0 <= i < |s| ==> IsDigit(s[i])
    ensures NoDoubleUnderscore(s)
  {
    if |s| >= 2 {
      DigitsHaveNoUnderscore(s[1..]);
    }
  }

  lemma {:induction false} DigitCountAll(s: string)
    requires forall i :: 0 <= i < |s| ==> IsDigit(s[i])
    ensures DigitCount(s) == |s|
  {
    if s != [] {
      DigitCountAll(s[1..]);
    }
  }

  /** `int(str(n)) == n` when `str(n)` has at most MaxStrDigits digits; a longer text raises ValueError. */
  lemma ParseNatToString(n: nat)
    ensures ParseInt(NatToString(n)) == if |NatToString(n)| <= MaxStrDigits then Some(n) else None
  {
    ParseDigits(NatToString(n));
  }

  /** `int("%d" % n) == n`, negative numbers included, when the text has at most MaxStrDigits digits. */
  lemma ParseIntToString(n: int)
    ensures ParseInt(IntToString(n)) == if DigitCount(IntToString(n)) <= MaxStrDigits then Some(n) else None
  {
    if n >= 0 {
      ParseNatToString(n);
      DigitCountAll(NatToString(n));
    } else {
      var d := NatToString(-n);
      var s := "-" + d;
      assert s[|s| - 1] == d[|d| - 1];
      assert s[1..] == d;
      StripByUnpadded(s, IsIntSpace);
      DigitsHaveNoUnderscore(d);
      DigitCountAll(d);
      assert DigitCount(s) == |d|;
      assert IsDigitGroup(d);
    }
  }

  function Pow10(k: nat): (p: nat)
    ensures p >= 1
  {
    if k == 0 then 1 else 10 * Pow10(k - 1)
  }

  /** `str(n)` has at most k digits exactly when n < 10^k (k >= 1). */
  lemma {:induction false} NatToStringLength(n: nat, k: nat)
    requires k >= 1
    ensures |NatToString(n)| <= k <==> n < Pow10(k)
  {
    if n >= 10 {
      assert |NatToString(n)| == |NatToString(n / 10)| + 1;
      if k == 1 {
        assert |NatToString(n / 10)| >= 1;
      } else {
        NatToStringLength(n / 10, k - 1);
        assert n / 10 < Pow10(k - 1) <==> n < 10 * Pow10(k - 1);
      }
    } else {
      assert Pow10(k) >= 10 by {
        assert Pow10(k) == 10 * Pow10(k - 1);
      }
    }
  }
}
