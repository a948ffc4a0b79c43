/**
 * The string primitives of the JavaScript runtime and of SQLite that the core relies on:
 * `String(n)` for a natural number, `padStart` with a one-character filler, SQLite's
 * `substr` with a positive start, the ECMAScript whitespace set (shared by `trim()` and the
 * regular-expression class `\s`) and the UTF-16 length that `String.prototype.length` reports.
 */
module Text {

  predicate IsDigit(c: char) { '0' <= c <= '9' }

  predicate AllDigits(s: string) { forall k :: 0 <= k < |s| ==> IsDigit(s[k]) }

  /** The decimal digit character for `d`. */
  function Digit(d: nat): (c: char)
    requires d < 10
    ensures IsDigit(c) && DigitValue(c) == d
  {
    (48 + d) as char
  }

  function DigitValue(c: char): (d: nat)
    requires IsDigit(c)
    ensures d < 10
  {
    c as int - 48
  }

  /** The number denoted by a string of decimal digits (the empty string denotes 0). */
  function DecimalValue(s: string): nat
    requires AllDigits(s)
  {
    if s == [] then 0 else 10 * DecimalValue(s[..|s| - 1]) + DigitValue(s[|s| - 1])
  }

  /** `String(n)` for a non-negative integer: its shortest decimal rendering. */
  function ToDecimal(n: nat): (r: string)
    ensures |r| >= 1 && AllDigits(r)
  {
    if n < 10 then [Digit(n)] else ToDecimal(n / 10) + [Digit(n % 10)]
  }

  /** `String(n)` has no leading zero, except for `n == 0` itself. */
  lemma {:induction false} ToDecimalCanonical(n: nat)
    ensures ToDecimal(n)[0] == '0' ==> n == 0
  {
    if n >= 10 {
      ToDecimalCanonical(n / 10);
      assert ToDecimal(n)[0] == ToDecimal(n / 10)[0];
    } else {
      assert DigitValue(Digit(n)) == n;
    }
  }

  /** `String(n)` is an exact rendering: reading it back gives `n`. */
  lemma {:induction false} DecimalRoundTrip(n: nat)
    ensures DecimalValue(ToDecimal(n)) == n
  {
    if n >= 10 {
      DecimalRoundTrip(n / 10);
      var r := ToDecimal(n);
      assert r[..|r| - 1] == ToDecimal(n / 10);
    }
  }

  /** `s.padStart(target, fill)` with a one-character filler string. */
  function PadStart(s: string, target: nat, fill: char): (r: string)
    ensures |r| == if |s| >= target then |s| else target
    ensures r[|r| - |s|..] == s
    ensures forall k :: 0 <= k < |r| - |s| ==> r[k] == fill
  {
    if |s| >= target then s else seq(target - |s|, _ => fill) + s
  }

  /** `String(n).padStart(2, '0')` for `n < 100` is exactly the tens digit, then the units digit. */
  lemma TwoDigitPad(n: nat)
    requires n < 100
    ensures PadStart(ToDecimal(n), 2, '0') == [Digit(n / 10), Digit(n % 10)]
  {
    if n < 10 {
      assert Digit(0) == '0';
    } else {
      assert ToDecimal(n / 10) == [Digit(n / 10)];
    }
  }

  function Min(a: int, b: int): int { if a <= b then a else b }

  /**
   * SQLite's `substr(s, start, length)` for a 1-based `start >= 1` and a non-negative
   * `length`: the characters at positions start .. start+length-1 that exist.
   */
  function SqliteSubstr(s: string, start: nat, length: nat): (r: string)
    requires start >= 1
    ensures |r| == if start - 1 >= |s| then 0 else Min(|s|, start - 1 + length) - (start - 1)
    ensures forall k :: 0 <= k < |r| ==> r[k] == s[start - 1 + k]
  {
    var b := Min(start - 1, |s|);
    var e := Min(start - 1 + length, |s|);
    s[b..e]
  }

  /**
   * The ECMAScript WhiteSpace and LineTerminator code points (ECMAScript 2023, sections
   * 12.2 and 12.3): the set matched by `\s` and removed by `String.prototype.trim`.
   * The Unicode "Zs" category is taken as of Unicode 15.
   */
  predicate IsJsWhitespace(c: char)
  {
    || c == '\t' || c == '\n' || c == '\U{000B}' || c == '\U{000C}' || c == '\r'
    || c == ' ' || c == '\U{00A0}' || c == '\U{1680}'
    || ('\U{2000}' <= c <= '\U{200A}')
    || c == '\U{2028}' || c == '\U{2029}' || c == '\U{202F}' || c == '\U{205F}'
    || c == '\U{3000}' || c == '\U{FEFF}'
  }

  /** No whitespace character is `@`, `.` or a digit, and every one lies in the Basic Multilingual Plane. */
  lemma WhitespaceOutsideAddressSyntax(c: char)
    ensures IsJsWhitespace(c) ==> c != '@' && c != '.' && !IsDigit(c) && c as int <= 0xFFFF
  {
  }

  predicate NoWhitespace(s: string) { forall k :: 0 <= k < |s| ==> !IsJsWhitespace(s[k]) }

  /** Removes leading whitespace: the result is the suffix that starts at the first non-whitespace character. */
  function TrimStart(s: string): (r: string)
    ensures |r| <= |s| && r == s[|s| - |r|..]
    ensures forall k :: 0 <= k < |s| - |r| ==> IsJsWhitespace(s[k])
    ensures r != [] ==> !IsJsWhitespace(r[0])
  {
    if s != [] && IsJsWhitespace(s[0]) then TrimStart(s[1..]) else s
  }

  /** Removes trailing whitespace: the result is the prefix that ends at the last non-whitespace character. */
  function TrimEnd(s: string): (r: string)
    ensures |r| <= |s| && r == s[..|r|]
    ensures forall k :: |r| <= k < |s| ==> IsJsWhitespace(s[k])
    ensures r != [] ==> !IsJsWhitespace(r[|r| - 1])
  {
    if s != [] && IsJsWhitespace(s[|s| - 1]) then TrimEnd(s[..|s| - 1]) else s
  }

  /** `String.prototype.trim`. */
  function Trim(s: string): (r: string)
    ensures |r| <= |s|
    ensures r != [] ==> !IsJsWhitespace(r[0]) && !IsJsWhitespace(r[|r| - 1])
  {
    TrimEnd(TrimStart(s))
  }

  /** Where the trimmed string lies in `s`: it starts at `a` and ends at `b`, with only whitespace outside. */
  lemma TrimBounds(s: string) returns (a: nat, b: nat)
    ensures a <= b <= |s| && Trim(s) == s[a..b]
    ensures forall k :: 0 <= k < a ==> IsJsWhitespace(s[k])
    ensures forall k :: b <= k < |s| ==> IsJsWhitespace(s[k])
  {
    var t := TrimStart(s);
    var r := TrimEnd(t);
    a := |s| - |t|;
    b := a + |r|;
    assert t == s[a..];
    assert r == s[a..b];
    SuffixShift(s, a, |r|, IsJsWhitespace);
  }

  /** A property of every element of `s[a..]` from position `m` on holds of `s` from `a + m` on. */
  lemma SuffixShift<T>(s: seq<T>, a: nat, m: nat, p: T -> bool)
    requires a <= |s| && m <= |s| - a
    requires forall k :: m <= k < |s| - a ==> p(s[a..][k])
    ensures forall k :: a + m <= k < |s| ==> p(s[k])
  {
    forall k | a + m <= k < |s|
      ensures p(s[k])
    {
      assert s[k] == s[a..][k - a];
    }
  }

  /** `trim()` keeps exactly the part of `s` between its leading and its trailing whitespace. */
  lemma TrimIsSlice(s: string)
    ensures exists a, b | 0 <= a <= b <= |s| ::
      && Trim(s) == s[a..b]
      && (forall k :: 0 <= k < a ==> IsJsWhitespace(s[k]))
      && (forall k :: b <= k < |s| ==> IsJsWhitespace(s[k]))
  {
    var a, b := TrimBounds(s);
  }

  lemma {:induction false} TrimStartFixed(s: string)
    requires s == [] || !IsJsWhitespace(s[0])
    ensures TrimStart(s) == s
  {
  }

  lemma {:induction false} TrimEndFixed(s: string)
    requires s == [] || !IsJsWhitespace(s[|s| - 1])
    ensures TrimEnd(s) == s
  {
  }

  /** Trimming twice is trimming once. */
  lemma TrimIdempotent(s: string)
    ensures Trim(Trim(s)) == Trim(s)
  {
    var t := Trim(s);
    TrimStartFixed(t);
    TrimEndFixed(t);
  }

  /** The number of UTF-16 code units of `s`: code points above U+FFFF take two. */
  function Utf16Length(s: string): (n: nat)
    ensures |s| <= n <= 2 * |s|
  {
    if s == [] then 0 else Utf16Length(s[..|s| - 1]) + (if s[|s| - 1] as int > 0xFFFF then 2 else 1)
  }

  /** On the Basic Multilingual Plane the UTF-16 length is the number of characters. */
  lemma {:induction false} Utf16LengthBmp(s: string)
    requires forall k :: 0 <= k < |s| ==> s[k] as int <= 0xFFFF
    ensures Utf16Length(s) == |s|
  {
    if s != [] {
      Utf16LengthBmp(s[..|s| - 1]);
    }
  }
}
