/**
 * The few pieces of JavaScript string semantics the chat controllers rely on:
 * the character classes of regular expressions (`\s`, `\d`, `.`), ASCII case
 * folding under the `i` flag, `String.prototype.trim`, `parseInt` of a digit
 * run and the decimal rendering of a non-negative integer in a template string.
 */
module JsText {

  /** The characters `\s` matches and `trim` removes: ECMAScript's WhiteSpace and LineTerminator. */
  predicate IsSpace(c: char) {
    || c == '\t' || c == '\n' || c == '\U{B}' || c == '\U{C}' || c == '\r' || c == ' '
    || c == '\U{A0}' || c == '\U{1680}' || ('\U{2000}' <= c <= '\U{200A}')
    || c == '\U{2028}' || c == '\U{2029}' || c == '\U{202F}' || c == '\U{205F}'
    || c == '\U{3000}' || c == '\U{FEFF}'
  }

  /** LineTerminator: the characters a regular-expression `.` does not match. */
  predicate IsLineTerminator(c: char) {
    c == '\n' || c == '\r' || c == '\U{2028}' || c == '\U{2029}'
  }

  /** `Math.min` of two integers. */
  function Min(a: int, b: int): int {
    if a <= b then a else b
  }

  /** `\d`: ASCII digits only. */
  predicate IsDigit(c: char) {
    '0' <= c <= '9'
  }

  predicate AllDigits(d: string) {
    forall k :: 0 <= k < |d| ==> IsDigit(d[k])
  }

  /**
   * Case folding of a case-insensitive, non-Unicode regular expression,
   * restricted to what matters here: no non-ASCII character folds onto an
   * ASCII one, so only `A`..`Z` change.
   */
  function LowerAscii(c: char): char {
    if 'A' <= c <= 'Z' then (c as int + 32) as char else c
  }

  /** `s[i..]` begins with `word` under the `i` flag; `word` is written in lower case. */
  predicate MatchesAt(s: string, i: nat, word: string) {
    i + |word| <= |s| && forall k :: 0 <= k < |word| ==> LowerAscii(s[i + k]) == word[k]
  }

  /** The length of the longest run of `\s` characters starting at index `i` (greedy `\s*`). */
  function SpaceRun(s: string, i: nat): (n: nat)
    requires i <= |s|
    ensures i + n <= |s|
    decreases |s| - i
  {
    if i < |s| && IsSpace(s[i]) then 1 + SpaceRun(s, i + 1) else 0
  }

  /** SpaceRun measures a run of white space that cannot be extended. */
  lemma {:induction false} SpaceRunMaximal(s: string, i: nat)
    requires i <= |s|
    ensures forall k :: i <= k < i + SpaceRun(s, i) ==> IsSpace(s[k])
    ensures i + SpaceRun(s, i) == |s| || !IsSpace(s[i + SpaceRun(s, i)])
    decreases |s| - i
  {
    if i < |s| && IsSpace(s[i]) {
      SpaceRunMaximal(s, i + 1);
    }
  }

  /** The length of the longest run of `\d` characters starting at index `i` (greedy `\d+` when positive). */
  function DigitRun(s: string, i: nat): (n: nat)
    requires i <= |s|
    ensures i + n <= |s|
    decreases |s| - i
  {
    if i < |s| && IsDigit(s[i]) then 1 + DigitRun(s, i + 1) else 0
  }

  /** DigitRun measures a run of digits that cannot be extended. */
  lemma {:induction false} DigitRunMaximal(s: string, i: nat)
    requires i <= |s|
    ensures forall k :: i <= k < i + DigitRun(s, i) ==> IsDigit(s[k])
    ensures i + DigitRun(s, i) == |s| || !IsDigit(s[i + DigitRun(s, i)])
    decreases |s| - i
  {
    if i < |s| && IsDigit(s[i]) {
      DigitRunMaximal(s, i + 1);
    }
  }

  /** The value of a decimal digit; only ever applied to digits. */
  function DigitValue(c: char): nat {
    if IsDigit(c) then c as int - '0' as int else 0
  }

  function DigitChar(n: nat): (c: char)
    requires n < 10
    ensures IsDigit(c) && DigitValue(c) == n
  {
    ('0' as int + n) as char
  }

  /** `parseInt` of a run of decimal digits, on unbounded integers. */
  function DecimalValue(d: string): nat {
    if |d| == 0 then 0 else 10 * DecimalValue(d[..|d| - 1]) + DigitValue(d[|d| - 1])
  }

  /** A non-negative integer as a template string renders it. */
  function DecimalString(n: nat): (r: string)
    ensures |r| >= 1
  {
    if n < 10 then [DigitChar(n)] else DecimalString(n / 10) + [DigitChar(n % 10)]
  }

  /** A rendered number is all digits, with a leading zero only for zero itself. */
  lemma {:induction false} DecimalStringDigits(n: nat)
    ensures AllDigits(DecimalString(n))
    ensures DecimalString(n)[0] == '0' <==> n == 0
  {
    if n >= 10 {
      DecimalStringDigits(n / 10);
      var r := DecimalString(n);
      assert r[0] == DecimalString(n / 10)[0];
    }
  }

  /** Reading back a rendered number gives the number. */
  lemma {:induction false} DecimalRoundTrip(n: nat)
    ensures DecimalValue(DecimalString(n)) == n
  {
    if n >= 10 {
      DecimalRoundTrip(n / 10);
      var r := DecimalString(n);
      assert r[..|r| - 1] == DecimalString(n / 10);
    }
  }

  /** Rendering the value of a digit string without a superfluous leading zero gives the string back. */
  lemma {:induction false} DecimalStringOfValue(d: string)
    requires |d| >= 1 && AllDigits(d) && (d[0] == '0' ==> d == "0")
    ensures DecimalString(DecimalValue(d)) == d
  {
    if |d| > 1 {
      var init := d[..|d| - 1];
      assert init[0] == d[0];
      DecimalStringOfValue(init);
      DecimalStringDigits(DecimalValue(init));
      var v := DecimalValue(d);
      DecimalValueLeadingDigit(init);
      assert v / 10 == DecimalValue(init) && v % 10 == DigitValue(d[|d| - 1]);
    }
  }

  /** A digit string that starts with a non-zero digit has a positive value. */
  lemma {:induction false} DecimalValueLeadingDigit(d: string)
    requires |d| >= 1 && AllDigits(d) && d[0] != '0'
    ensures DecimalValue(d) >= 1
  {
    if |d| > 1 {
      var init := d[..|d| - 1];
      assert init[0] == d[0];
      DecimalValueLeadingDigit(init);
    }
  }

  /** The length of the run of white space that ends just before index `j`. */
  function SpaceRunBack(s: string, j: nat): (n: nat)
    requires j <= |s|
    ensures n <= j
  {
    if j > 0 && IsSpace(s[j - 1]) then 1 + SpaceRunBack(s, j - 1) else 0
  }

  /** SpaceRunBack measures a run of white space that cannot be extended to the left. */
  lemma {:induction false} SpaceRunBackMaximal(s: string, j: nat)
    requires j <= |s|
    ensures forall k :: j - SpaceRunBack(s, j) <= k < j ==> IsSpace(s[k])
    ensures SpaceRunBack(s, j) == j || !IsSpace(s[j - SpaceRunBack(s, j) - 1])
  {
    if j > 0 && IsSpace(s[j - 1]) {
      SpaceRunBackMaximal(s, j - 1);
    }
  }

  /** `trimStart`: everything after the leading white space. */
  function TrimStart(s: string): string {
    s[SpaceRun(s, 0)..]
  }

  /** `trimEnd`: everything before the trailing white space. */
  function TrimEnd(s: string): string {
    s[..|s| - SpaceRunBack(s, |s|)]
  }

  /** trimStart drops the leading white space and nothing else. */
  lemma TrimStartDrops(s: string)
    ensures var r := TrimStart(s);
      && |r| <= |s| && r == s[|s| - |r|..]
      && (forall k :: 0 <= k < |s| - |r| ==> IsSpace(s[k]))
      && (r != [] ==> !IsSpace(r[0]))
  {
    SpaceRunMaximal(s, 0);
    var r := TrimStart(s);
    if r != [] {
      assert r[0] == s[SpaceRun(s, 0)];
    }
  }

  /** trimEnd drops the trailing white space and nothing else. */
  lemma TrimEndDrops(s: string)
    ensures var r := TrimEnd(s);
      && |r| <= |s| && r == s[..|r|]
      && (forall k :: |r| <= k < |s| ==> IsSpace(s[k]))
      && (r != [] ==> !IsSpace(r[|r| - 1]))
  {
    SpaceRunBackMaximal(s, |s|);
    var r := TrimEnd(s);
    if r != [] {
      assert r[|r| - 1] == s[|s| - SpaceRunBack(s, |s|) - 1];
    }
  }

  /** `String.prototype.trim`. */
  function Trim(s: string): string {
    TrimEnd(TrimStart(s))
  }

  /**
   * Trim keeps one contiguous slice of its input, everything it drops is
   * white space, and the slice neither starts nor ends with white space.
   */
  lemma TrimSlice(s: string) returns (i: nat)
    ensures i + |Trim(s)| <= |s| && Trim(s) == s[i..i + |Trim(s)|]
    ensures forall k :: 0 <= k < i ==> IsSpace(s[k])
    ensures forall k :: i + |Trim(s)| <= k < |s| ==> IsSpace(s[k])
    ensures Trim(s) != [] ==> !IsSpace(Trim(s)[0]) && !IsSpace(Trim(s)[|Trim(s)| - 1])
  {
    var t := TrimStart(s);
    var r := TrimEnd(t);
    TrimStartDrops(s);
    TrimEndDrops(t);
    i := |s| - |t|;
    assert r == t[..|r|];
    if r != [] {
      assert r[0] == t[0];
    }
  }

  /** A string with no white space at either end is its own trim. */
  lemma TrimUnchanged(s: string)
    requires s == [] || (!IsSpace(s[0]) && !IsSpace(s[|s| - 1]))
    ensures Trim(s) == s
  {
    TrimStartDrops(s);
    TrimEndDrops(s);
  }

  /** Trimming twice is trimming once. */
  lemma TrimIdempotent(s: string)
    ensures Trim(Trim(s)) == Trim(s)
  {
    var _ := TrimSlice(s);
    TrimUnchanged(Trim(s));
  }
}
