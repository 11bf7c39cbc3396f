/**
 * The few Python string built-ins the core relies on, stated over `seq<char>`:
 * `str.isspace`, `str.strip`, `str.replace` with a one-character pattern,
 * `str.startswith`, and `int(str)` in base 10.
 */
module PyStr {
  import opened Common

  /**
   * The characters for which Python's `str.isspace()` is true, and which
   * `str.strip()` with no argument skips: U+0009..U+000D, U+001C..U+0020,
   * U+0085, U+00A0, U+1680, U+2000..U+200A, U+2028, U+2029, U+202F, U+205F
   * and U+3000.
   */
  predicate IsPySpace(c: char) {
    '\U{09}' <= c <= '\U{0D}' || '\U{1C}' <= c <= ' ' || c == '\U{85}' || c == '\U{A0}' ||
    c == '\U{1680}' || '\U{2000}' <= c <= '\U{200A}' || c == '\U{2028}' || c == '\U{2029}' ||
    c == '\U{202F}' || c == '\U{205F}' || c == '\U{3000}'
  }

  /**
   * The whitespace `int()` skips around a number: every `str.isspace()`
   * character except the four separators U+001C..U+001F. `int()` maps
   * non-ASCII whitespace to a space but passes ASCII through, and then skips
   * only tab, line feed, vertical tab, form feed, carriage return and space.
   */
  predicate IsIntSpace(c: char) {
    IsPySpace(c) && !('\U{1C}' <= c <= '\U{1F}')
  }

  /**
   * What is skipped at both ends: `str.strip()` whitespace (no argument),
   * the whitespace `int()` skips, or the characters of a `strip` argument.
   */
  datatype StripSet = Whitespace | IntSpace | Chars(chars: set<char>)

  predicate InSet(c: char, cs: StripSet) {
    match cs
    case Whitespace => IsPySpace(c)
    case IntSpace => IsIntSpace(c)
    case Chars(chars) => c in chars
  }

  predicate StartsWith(s: string, prefix: string) {
    prefix <= s
  }

  /** Drops leading characters that belong to `cs`. */
  function TrimStart(s: string, cs: StripSet): string {
    if s != [] && InSet(s[0], cs) then TrimStart(s[1..], cs) else s
  }

  /** `TrimStart` keeps a suffix, drops only characters of `cs`, and stops at the first other one. */
  lemma {:induction false} TrimStartSpec(s: string, cs: StripSet)
    ensures var r := TrimStart(s, cs);
            |r| <= |s| && (forall k :: 0 <= k < |r| ==> r[k] == s[|s| - |r| + k]) &&
            (forall k :: 0 <= k < |s| - |r| ==> InSet(s[k], cs)) &&
            (r == [] || !InSet(r[0], cs))
  {
    if s != [] && InSet(s[0], cs) {
      TrimStartSpec(s[1..], cs);
    }
  }

  /** Drops trailing characters that belong to `cs`. */
  function TrimEnd(s: string, cs: StripSet): string {
    if s != [] && InSet(s[|s| - 1], cs) then TrimEnd(s[..|s| - 1], cs) else s
  }

  /** `TrimEnd` keeps a prefix, drops only characters of `cs`, and stops at the last other one. */
  lemma {:induction false} TrimEndSpec(s: string, cs: StripSet)
    ensures var r := TrimEnd(s, cs);
            |r| <= |s| && (forall k :: 0 <= k < |r| ==> r[k] == s[k]) &&
            (forall k :: |r| <= k < |s| ==> InSet(s[k], cs)) &&
            (r == [] || !InSet(r[|r| - 1], cs))
  {
    if s != [] && InSet(s[|s| - 1], cs) {
      TrimEndSpec(s[..|s| - 1], cs);
    }
  }

  /**
   * Python's `s.strip(chars)`: the longest middle slice of `s` that neither
   * starts nor ends with a character of `cs`.
   */
  function Strip(s: string, cs: StripSet): string {
    TrimEnd(TrimStart(s, cs), cs)
  }

  /**
   * What `Strip` keeps is a slice of `s` that neither starts nor ends with a
   * character of `cs`, and everything it drops around that slice is in `cs`.
   */
  lemma StripSpec(s: string, cs: StripSet) returns (i: nat)
    ensures var r := Strip(s, cs);
            i + |r| <= |s| && (forall k :: 0 <= k < |r| ==> r[k] == s[i + k]) &&
            (r == [] || (!InSet(r[0], cs) && !InSet(r[|r| - 1], cs))) &&
            (forall k :: 0 <= k < i ==> InSet(s[k], cs)) &&
            (forall k :: i + |r| <= k < |s| ==> InSet(s[k], cs))
  {
    var t := TrimStart(s, cs);
    TrimStartSpec(s, cs);
    i := |s| - |t|;
    var r := TrimEnd(t, cs);
    TrimEndSpec(t, cs);
    if r != [] {
      assert r[0] == t[0];
    }
    forall k | i + |r| <= k < |s|
      ensures InSet(s[k], cs)
    {
      assert s[k] == t[k - i];
    }
  }

  /** A string that neither starts nor ends with a character of `cs` is left as it is. */
  lemma StripUnchanged(s: string, cs: StripSet)
    requires s == [] || (!InSet(s[0], cs) && !InSet(s[|s| - 1], cs))
    ensures Strip(s, cs) == s
  {
  }

  /** Python's `s.replace(c, d)` for one-character `c` and `d`: a position-wise substitution. */
  function ReplaceChar(s: string, c: char, d: char): (r: string)
    ensures |r| == |s|
    ensures forall k :: 0 <= k < |s| ==> r[k] == if s[k] == c then d else s[k]
  {
    if s == [] then [] else [if s[0] == c then d else s[0]] + ReplaceChar(s[1..], c, d)
  }

  /** Python's `s.replace(c, "")`: every occurrence of `c` deleted, everything else kept in order. */
  function RemoveChar(s: string, c: char): string {
    if s == [] then [] else (if s[0] == c then [] else [s[0]]) + RemoveChar(s[1..], c)
  }

  /** After `RemoveChar` no `c` is left and every other character of `s` still is. */
  lemma {:induction false} RemoveCharSpec(s: string, c: char)
    ensures |RemoveChar(s, c)| <= |s|
    ensures forall x :: x in RemoveChar(s, c) <==> x in s && x != c
  {
    if s != [] {
      RemoveCharSpec(s[1..], c);
      assert s == [s[0]] + s[1..];
    }
  }

  lemma {:induction false} RemoveCharConcat(a: string, b: string, c: char)
    ensures RemoveChar(a + b, c) == RemoveChar(a, c) + RemoveChar(b, c)
  {
    if a == [] {
      assert a + b == b;
    } else {
      assert (a + b)[0] == a[0];
      assert (a + b)[1..] == a[1..] + b;
      RemoveCharConcat(a[1..], b, c);
    }
  }

  lemma {:induction false} RemoveCharAbsent(s: string, c: char)
    requires c !in s
    ensures RemoveChar(s, c) == s
  {
    if s != [] {
      RemoveCharAbsent(s[1..], c);
    }
  }

  predicate IsDigit(ch: char) {
    '0' <= ch <= '9'
  }

  function DigitValue(ch: char): nat {
    if IsDigit(ch) then (ch - '0') as nat else 0
  }

  function DigitChar(n: nat): (ch: char)
    requires n < 10
    ensures IsDigit(ch) && DigitValue(ch) == n
  {
    ('0' as int + n) as char
  }

  /**
   * The body of a base-10 integer literal as `int()` accepts it: digits, where a
   * single `_` may separate two digits (so it neither starts, ends, nor doubles).
   */
  predicate IsDigitGroup(d: string) {
    |d| > 0 && IsDigit(d[0]) && IsDigit(d[|d| - 1]) &&
    (forall k :: 0 <= k < |d| ==> IsDigit(d[k]) || d[k] == '_') &&
    (forall i, j :: 0 <= i < |d| && 0 <= j < |d| && j == i + 1 ==> d[i] != '_' || d[j] != '_')
  }

  /** The number a digit group denotes; underscores do not count. */
  function DigitsValue(d: string): nat {
    if d == [] then 0
    else if d[|d| - 1] == '_' then DigitsValue(d[..|d| - 1])
    else DigitsValue(d[..|d| - 1]) * 10 + DigitValue(d[|d| - 1])
  }

  /** A digit group's value, or `None` when `d` is not one. */
  function ParseDigits(d: string): (r: Option<nat>)
    ensures r.Some? <==> IsDigitGroup(d)
  {
    if IsDigitGroup(d) then Some(DigitsValue(d)) else None
  }

  /** An optionally signed digit group with nothing around it. */
  function ParseSigned(t: string): Option<int> {
    if t != [] && t[0] == '-' then
      match ParseDigits(t[1..])
      case Some(m) => Some(-(m as int))
      case None => None
    else if t != [] && t[0] == '+' then
      match ParseDigits(t[1..])
      case Some(m) => Some(m)
      case None => None
    else
      match ParseDigits(t)
      case Some(m) => Some(m)
      case None => None
  }

  /**
   * Python's `int(s)` in base 10: surrounding `IsIntSpace` whitespace is
   * skipped, one optional sign, then a digit group. `None` stands for the
   * `ValueError` it raises.
   */
  function ParseInt(s: string): Option<int> {
    ParseSigned(Strip(s, IntSpace))
  }

  /** Decimal text of a natural number, without sign or separators. */
  function ShowNat(n: nat): (r: string)
    ensures |r| > 0
    ensures forall ch :: ch in r ==> IsDigit(ch)
  {
    if n < 10 then [DigitChar(n)] else ShowNat(n / 10) + [DigitChar(n % 10)]
  }

  lemma {:induction false} DigitsValueShowNat(n: nat)
    ensures IsDigitGroup(ShowNat(n)) && DigitsValue(ShowNat(n)) == n
  {
    if n >= 10 {
      DigitsValueShowNat(n / 10);
      var d := ShowNat(n);
      assert d[..|d| - 1] == ShowNat(n / 10);
    }
  }

  lemma DigitsNotSpace(s: string)
    requires forall ch :: ch in s ==> IsDigit(ch)
    ensures s == [] || (!IsPySpace(s[0]) && !IsPySpace(s[|s| - 1]))
  {
    if s != [] {
      assert s[0] in s && s[|s| - 1] in s;
    }
  }

  /** A minus sign followed by digits has no surrounding whitespace to strip. */
  lemma StripNegativeText(m: nat)
    ensures Strip("-" + ShowNat(m), IntSpace) == "-" + ShowNat(m)
  {
    var digits := ShowNat(m);
    var s := "-" + digits;
    DigitsNotSpace(digits);
    assert s[|s| - 1] == digits[|digits| - 1];
    StripUnchanged(s, IntSpace);
  }

  /** `int(str(m)) == m`: parsing is the inverse of decimal printing. */
  lemma ParseShowNat(m: nat)
    ensures ParseInt(ShowNat(m)) == Some(m)
  {
    var digits := ShowNat(m);
    DigitsValueShowNat(m);
    DigitsNotSpace(digits);
    StripUnchanged(digits, IntSpace);
    assert digits[0] in digits;
  }

  /** `int(str(-m)) == -m`: a minus sign before the digits of `m` reads as `-m`. */
  lemma ParseShowNegative(m: nat)
    ensures ParseInt("-" + ShowNat(m)) == Some(-(m as int))
  {
    var digits := ShowNat(m);
    var s := "-" + digits;
    StripNegativeText(m);
    DigitsValueShowNat(m);
    assert s[0] == '-' && s[1..] == digits;
    assert ParseDigits(digits) == Some(m);
  }

  /** Text with no `-` never reads as a negative number. */
  lemma ParseIntNonNegative(s: string)
    requires '-' !in s && ParseInt(s).Some?
    ensures ParseInt(s).value >= 0
  {
    var t := Strip(s, IntSpace);
    var i := StripSpec(s, IntSpace);
    if t != [] {
      assert t[0] == s[i];
    }
  }
}
