/**
 * The Python string and integer builtins the modelled code relies on:
 * `str.strip()`, `int(str)` in base 10, `str(int)` and `str.split(sep)`.
 */
module Text {
  import opened Wrappers

  /** The characters Python's `str.isspace` (and so `str.strip()`) treats as whitespace. */
  predicate IsSpace(c: char) {
    || ('\U{9}' <= c <= '\U{D}')
    || ('\U{1C}' <= c <= '\U{20}')
    || c == '\U{85}' || c == '\U{A0}' || c == '\U{1680}'
    || ('\U{2000}' <= c <= '\U{200A}')
    || c == '\U{2028}' || c == '\U{2029}' || c == '\U{202F}' || c == '\U{205F}'
    || c == '\U{3000}'
  }

  /** True when `s` neither starts nor ends with whitespace. */
  predicate Trimmed(s: string) {
    |s| == 0 || (!IsSpace(s[0]) && !IsSpace(s[|s| - 1]))
  }

  /** The position of the first non-whitespace character of `s` at or after `i`, or `|s|`. */
  function SkipSpace(s: string, i: nat): (k: nat)
    requires i <= |s|
    ensures i <= k <= |s|
    decreases |s| - i
  {
    if i < |s| && IsSpace(s[i]) then SkipSpace(s, i + 1) else i
  }

  /** `SkipSpace` skips whitespace only, and stops at a character that is not whitespace. */
  lemma {:induction false} SkipSpaceSkipsSpace(s: string, i: nat)
    requires i <= |s|
    ensures var k := SkipSpace(s, i);
            && (k < |s| ==> !IsSpace(s[k]))
            && forall j :: i <= j < k ==> IsSpace(s[j])
    decreases |s| - i
  {
    if i < |s| && IsSpace(s[i]) {
      SkipSpaceSkipsSpace(s, i + 1);
    }
  }

  /** The end of `s[..j]` once its trailing whitespace is dropped. */
  function SkipSpaceBack(s: string, j: nat): (k: nat)
    requires j <= |s|
    ensures k <= j
  {
    if j > 0 && IsSpace(s[j - 1]) then SkipSpaceBack(s, j - 1) else j
  }

  /** `SkipSpaceBack` drops whitespace only, and stops after a character that is not whitespace. */
  lemma {:induction false} SkipSpaceBackSkipsSpace(s: string, j: nat)
    requires j <= |s|
    ensures var k := SkipSpaceBack(s, j);
            && (k > 0 ==> !IsSpace(s[k - 1]))
            && forall m :: k <= m < j ==> IsSpace(s[m])
  {
    if j > 0 && IsSpace(s[j - 1]) {
      SkipSpaceBackSkipsSpace(s, j - 1);
    }
  }

  /** Python's `s.strip()`: the whitespace at both ends removed, nothing in between. */
  function Strip(s: string): string
  {
    var a := SkipSpace(s, 0);
    var b := SkipSpaceBack(s, |s|);
    if a < b then s[a..b] else ""
  }

  /**
   * `Strip` keeps one contiguous piece of `s` and removes only whitespace:
   * the piece starts at the first non-whitespace character, and neither of
   * its ends is whitespace.
   */
  lemma StripKeepsInfix(s: string)
    ensures var a := SkipSpace(s, 0); var r := Strip(s);
            && Trimmed(r)
            && a + |r| <= |s| && r == s[a..a + |r|]
            && forall i :: 0 <= i < |s| && !(a <= i < a + |r|) ==> IsSpace(s[i])
  {
    var a := SkipSpace(s, 0);
    var b := SkipSpaceBack(s, |s|);
    SkipSpaceSkipsSpace(s, 0);
    SkipSpaceBackSkipsSpace(s, |s|);
    if a < |s| {
      assert a < b;
    }
  }

  /** The result of `Strip` has no whitespace at either end. */
  lemma StripIsTrimmed(s: string)
    ensures Trimmed(Strip(s))
  {
    StripKeepsInfix(s);
  }

  /** Stripping a string that has no whitespace at either end leaves it unchanged. */
  lemma StripTrimmed(s: string)
    requires Trimmed(s)
    ensures Strip(s) == s
  {
  }

  /** Stripping twice is stripping once. */
  lemma StripIdempotent(s: string)
    ensures Strip(Strip(s)) == Strip(s)
  {
    StripIsTrimmed(s);
    StripTrimmed(Strip(s));
  }

  predicate IsDigit(c: char) {
    '0' <= c <= '9'
  }

  function DigitValue(c: char): (d: nat)
    requires IsDigit(c)
    ensures d < 10
  {
    (c as int) - ('0' as int)
  }

  function DigitChar(d: nat): (c: char)
    requires d < 10
    ensures IsDigit(c) && DigitValue(c) == d
  {
    (('0' as int) + d) as char
  }

  /**
   * A run of decimal digits in which single underscores may separate digits,
   * the body Python's `int()` accepts after an optional sign: a digit, then
   * any number of digits each optionally preceded by one underscore.
   */
  predicate IsDigitRun(s: string)
    decreases |s|
  {
    && |s| > 0
    && IsDigit(s[|s| - 1])
    && (|| |s| == 1
        || IsDigitRun(s[..|s| - 1])
        || (|s| >= 3 && s[|s| - 2] == '_' && IsDigitRun(s[..|s| - 2])))
  }

  /** The number a digit run denotes; underscores carry no value. */
  function DigitRunValue(s: string): nat
    requires IsDigitRun(s)
    decreases |s|
  {
    var d := DigitValue(s[|s| - 1]);
    assert |s| > 1 && s[|s| - 2] == '_' ==> !IsDigitRun(s[..|s| - 1]) by {
      if |s| > 1 { assert s[..|s| - 1][|s| - 2] == s[|s| - 2]; }
    }
    if |s| == 1 then d
    else if s[|s| - 2] == '_' then DigitRunValue(s[..|s| - 2]) * 10 + d
    else DigitRunValue(s[..|s| - 1]) * 10 + d
  }

  /**
   * The whitespace `int()` skips around a number: that of `str.isspace`
   * except the four information separators U+001C..U+001F.
   */
  predicate IsIntSpace(c: char) {
    IsSpace(c) && !('\U{1C}' <= c <= '\U{1F}')
  }

  /** The position of the first character at or after `i` that `int()` does not skip, or `|s|`. */
  function SkipIntSpace(s: string, i: nat): (k: nat)
    requires i <= |s|
    ensures i <= k <= |s|
    decreases |s| - i
  {
    if i < |s| && IsIntSpace(s[i]) then SkipIntSpace(s, i + 1) else i
  }

  /** The end of `s[..j]` once the trailing whitespace `int()` skips is dropped. */
  function SkipIntSpaceBack(s: string, j: nat): (k: nat)
    requires j <= |s|
    ensures k <= j
  {
    if j > 0 && IsIntSpace(s[j - 1]) then SkipIntSpaceBack(s, j - 1) else j
  }

  /** What `int()` parses of `s`: the text between the whitespace it skips at both ends. */
  function IntStrip(s: string): string {
    var a := SkipIntSpace(s, 0);
    var b := SkipIntSpaceBack(s, |s|);
    if a < b then s[a..b] else ""
  }

  /**
   * Python's `int(s)` in base 10: surrounding whitespace is ignored, then an
   * optional sign and a digit run. `None` stands for the `ValueError` it raises.
   */
  function ParseInt(s: string): (r: Option<int>)
    ensures r.Some? ==> |IntStrip(s)| > 0
  {
    var t := IntStrip(s);
    if |t| > 0 && (t[0] == '+' || t[0] == '-') then
      if IsDigitRun(t[1..]) then
        var n: int := DigitRunValue(t[1..]);
        Some(if t[0] == '-' then -n else n)
      else None
    else if IsDigitRun(t) then Some(DigitRunValue(t))
    else None
  }

  /** Python's `str(n)` for a natural number: decimal digits, no leading zeros. */
  function ShowNat(n: nat): (s: string)
    ensures |s| > 0
    ensures forall i :: 0 <= i < |s| ==> IsDigit(s[i])
    ensures IsDigitRun(s) && DigitRunValue(s) == n
    ensures s[0] != '0' || n == 0
  {
    if n < 10 then [DigitChar(n)]
    else
      var s := ShowNat(n / 10) + [DigitChar(n % 10)];
      assert s[..|s| - 1] == ShowNat(n / 10);
      s
  }

  /** Python's `str(n)` for an integer: a minus sign before negative numbers. */
  function ShowInt(n: int): (s: string)
    ensures |s| > 0 && Trimmed(s)
    ensures forall i :: 0 <= i < |s| ==> IsDigit(s[i]) || s[i] == '-'
  {
    if n < 0 then "-" + ShowNat(-n) else ShowNat(n)
  }

  /**
   * `int()` skips a space before the number but rejects a separator there,
   * although `str.strip()` removes both.
   */
  lemma ParseIntSeparatorMargin()
    ensures ParseInt(" 1") == Some(1)
    ensures ParseInt("\U{1C}1") == None
    ensures Strip("\U{1C}1") == Strip(" 1") == "1"
  {
    assert Strip(" 1") == "1";
    assert Strip("\U{1C}1") == "1";
    assert IntStrip(" 1") == "1";
    assert IntStrip("\U{1C}1") == "\U{1C}1";
    assert DigitRunValue("1") == 1;
  }

  /** `int()` accepts leading zeros: `int("01") == 1`, while `str(1)` is `"1"`. */
  lemma ParseIntLeadingZero()
    ensures ParseInt("01") == Some(1)
    ensures ShowInt(1) == "1"
  {
    assert IntStrip("01") == "01";
    assert IsDigitRun("01") && DigitRunValue("01") == 1;
  }

  /** `int(str(n)) == n`: reading back a printed integer gives the integer. */
  lemma ParseShowInt(n: int)
    ensures ParseInt(ShowInt(n)) == Some(n)
  {
    var s := ShowInt(n);
    assert IntStrip(s) == s;
    if n < 0 {
      assert s[1..] == ShowNat(-n);
    }
  }

  /** The position of the first `c` in `s`. */
  function IndexOf(s: string, c: char): (i: nat)
    requires c in s
    ensures i < |s| && s[i] == c
    ensures c !in s[..i]
  {
    if s[0] == c then 0 else 1 + IndexOf(s[1..], c)
  }

  /** The pieces joined back with `sep` between neighbours, as Python's `sep.join(parts)`. */
  function Join(parts: seq<string>, sep: char): string
    requires |parts| > 0
  {
    if |parts| == 1 then parts[0] else parts[0] + [sep] + Join(parts[1..], sep)
  }

  /**
   * Python's `s.split(sep)` for a one-character separator: every piece lies
   * between two separators, so joining the pieces gives `s` back.
   */
  function Split(s: string, sep: char): (parts: seq<string>)
    ensures |parts| > 0
    ensures Join(parts, sep) == s
    ensures forall i :: 0 <= i < |parts| ==> sep !in parts[i]
    decreases |s|
  {
    if sep !in s then [s]
    else
      var i := IndexOf(s, sep);
      var rest := Split(s[i + 1..], sep);
      assert s == s[..i] + [sep] + s[i + 1..];
      [s[..i]] + rest
  }

  /** Splitting pieces that do not contain the separator after joining them gives the pieces back. */
  lemma {:induction false} SplitJoin(parts: seq<string>, sep: char)
    requires |parts| > 0
    requires forall i :: 0 <= i < |parts| ==> sep !in parts[i]
    ensures Split(Join(parts, sep), sep) == parts
    decreases |parts|
  {
    if |parts| > 1 {
      var s := Join(parts, sep);
      var p := parts[0];
      assert s == p + [sep] + Join(parts[1..], sep);
      assert s[..|p|] == p;
      assert IndexOf(s, sep) == |p| by {
        IndexOfAfter(p, sep, Join(parts[1..], sep));
      }
      assert s[|p| + 1..] == Join(parts[1..], sep);
      SplitJoin(parts[1..], sep);
    }
  }

  lemma IndexOfAfter(p: string, sep: char, tail: string)
    requires sep !in p
    ensures IndexOf(p + [sep] + tail, sep) == |p|
  {
    var s := p + [sep] + tail;
    assert s[|p|] == sep && s[..|p|] == p;
  }
}
