/**
 * The directive formats the prompt asks the model for, `CITATIONS: [Page X, Page Y]`
 * and `CITATIONS: [Pages A-B]`, rendered as text, and the round trips through
 * the citation parser: a directive written in either form and appended to an
 * answer is read back as exactly the pages it names.
 */
module DirectiveFormats {
  import opened Wrappers
  import opened JsText
  import opened Citations

  /** `Page X, Page Y, ...`, the list form. */
  function PageList(pages: seq<nat>): string
    decreases |pages|
  {
    if |pages| == 0 then ""
    else if |pages| == 1 then "Page " + DecimalString(pages[0])
    else "Page " + DecimalString(pages[0]) + ", " + PageList(pages[1..])
  }

  /** `Pages A-B`, or `Page A-B` when `plural` is false; the pattern accepts both. */
  function RangeSpec(first: nat, last: nat, plural: bool): string {
    (if plural then "Pages " else "Page ") + DecimalString(first) + "-" + DecimalString(last)
  }

  /** The directive around a bracket text. */
  function DirectiveText(spec: string): string {
    "CITATIONS: [" + spec + "]"
  }

  /** The keyword does not occur anywhere in `s`, in any letter case. */
  ghost predicate NoKeyword(s: string) {
    forall p: nat :: p <= |s| ==> !MatchesAt(s, p, Keyword)
  }

  /** Text that may stand between the brackets: no `]` and no line terminator. */
  ghost predicate BracketSafe(t: string) {
    forall k :: 0 <= k < |t| ==> t[k] != ']' && !IsLineTerminator(t[k])
  }

  // ---------------------------------------------------------------------------
  // Scanning facts

  /** A maximal run of `n` white-space characters at `i` is what SpaceRun measures. */
  lemma {:induction false} SpaceRunIs(t: string, i: nat, n: nat)
    requires i + n <= |t|
    requires forall k :: i <= k < i + n ==> IsSpace(t[k])
    requires i + n == |t| || !IsSpace(t[i + n])
    ensures SpaceRun(t, i) == n
    decreases n
  {
    if n > 0 {
      SpaceRunIs(t, i + 1, n - 1);
    }
  }

  /** A maximal run of `n` digits at `i` is what DigitRun measures. */
  lemma {:induction false} DigitRunIs(t: string, i: nat, n: nat)
    requires i + n <= |t|
    requires forall k :: i <= k < i + n ==> IsDigit(t[k])
    requires i + n == |t| || !IsDigit(t[i + n])
    ensures DigitRun(t, i) == n
    decreases n
  {
    if n > 0 {
      DigitRunIs(t, i + 1, n - 1);
    }
  }

  /** A non-empty run of digits, as a rendered number is. */
  ghost predicate Numeral(d: string) {
    |d| >= 1 && AllDigits(d)
  }

  lemma RenderedIsNumeral(x: nat)
    ensures Numeral(DecimalString(x))
  {
    DecimalStringDigits(x);
  }

  /** The digits `d` at index `i` of `t`, followed by a non-digit or the end, are the digit run there. */
  lemma NumberAt(t: string, i: nat, d: string)
    requires Numeral(d) && i + |d| <= |t| && t[i..i + |d|] == d
    requires i + |d| == |t| || !IsDigit(t[i + |d|])
    ensures DigitRun(t, i) == |d|
  {
    forall k | i <= k < i + |d|
      ensures IsDigit(t[k])
    {
      assert t[k] == d[k - i];
    }
    DigitRunIs(t, i, |d|);
  }

  /** Text that starts with neither `p` nor `P` holds no token at its start. */
  lemma NoTokenAtStart(t: string)
    requires t != [] && LowerAscii(t[0]) != 'p'
    ensures TokenAtStart(t).None? && RangeAtStart(t).None?
  {
    assert LowerAscii(t[0 + 0]) != "page"[0];
  }

  /** `Page` followed by the digits `d` at the start of `t`, and then a non-digit or the end, is a token. */
  lemma TokenAt(t: string, d: string)
    requires Numeral(d) && 5 + |d| <= |t| && t[..5] == "Page " && t[5..5 + |d|] == d
    requires 5 + |d| == |t| || !IsDigit(t[5 + |d|])
    ensures TokenAtStart(t) == Some(Token(DecimalValue(d), 5 + |d|))
  {
    TokenAtSlice(t, d);
    ValueOfEqual(t[5..5 + |d|], d);
  }

  /** TokenAt, with the page still read off `t`. */
  lemma TokenAtSlice(t: string, d: string)
    requires Numeral(d) && 5 + |d| <= |t| && t[..5] == "Page " && t[5..5 + |d|] == d
    requires 5 + |d| == |t| || !IsDigit(t[5 + |d|])
    ensures TokenAtStart(t) == Some(Token(DecimalValue(t[5..5 + |d|]), 5 + |d|))
  {
    PageWordMatches(t);
    assert t[4] == ' ';
    assert t[5] == d[0];
    SpaceRunIs(t, 4, 1);
    NumberAt(t, 5, d);
  }

  lemma ValueOfEqual(x: string, y: string)
    requires x == y
    ensures DecimalValue(x) == DecimalValue(y)
  {
  }

  /** `Page d, ` followed by `rest`. */
  lemma ListItemLayout(d: string, rest: string)
    ensures var t := "Page " + d + ", " + rest;
      && t[..5] == "Page " && t[5..5 + |d|] == d && t[5 + |d|] == ','
      && t[5 + |d| + 1] == ' ' && t[5 + |d| + 2..] == rest
  {
  }

  /** One step of the global scan: `Page d, ` is read as d, and scanning resumes after the comma and space. */
  lemma ListStep(d: string, rest: string)
    requires Numeral(d)
    ensures PageTokens("Page " + d + ", " + rest) == [DecimalValue(d)] + PageTokens(rest)
  {
    var t := "Page " + d + ", " + rest;
    ListItemLayout(d, rest);
    TokenAt(t, d);
    ScanPastSeparator(t, DecimalValue(d), 5 + |d|);
  }

  /** A token followed by `, `: the scan takes the token, skips the separator and goes on after it. */
  lemma ScanPastSeparator(t: string, page: nat, m: nat)
    requires 0 < m && m + 2 <= |t| && t[m] == ',' && t[m + 1] == ' '
    requires TokenAtStart(t) == Some(Token(page, m))
    ensures PageTokens(t) == [page] + PageTokens(t[m + 2..])
  {
    var u := t[m..];
    assert PageTokens(t) == [page] + PageTokens(u);
    NoTokenAtStart(u);
    assert PageTokens(u) == PageTokens(u[1..]);
    NoTokenAtStart(u[1..]);
    assert PageTokens(u[1..]) == PageTokens(u[1..][1..]);
    assert u[1..][1..] == t[m + 2..];
  }

  /** The last item of the list form. */
  lemma ListEnd(d: string)
    requires Numeral(d)
    ensures PageTokens("Page " + d) == [DecimalValue(d)]
  {
    var t := "Page " + d;
    assert t[..5] == "Page " && t[5..] == d;
    TokenAt(t, d);
    assert t[5 + |d|..] == [];
  }

  /** The list form reads back as exactly the pages it lists. */
  lemma {:induction false} PageTokensOfList(pages: seq<nat>)
    ensures PageTokens(PageList(pages)) == pages
    decreases |pages|
  {
    if |pages| >= 1 {
      RenderedIsNumeral(pages[0]);
      DecimalRoundTrip(pages[0]);
      if |pages| == 1 {
        ListEnd(DecimalString(pages[0]));
      } else {
        ListStep(DecimalString(pages[0]), PageList(pages[1..]));
        PageTokensOfList(pages[1..]);
      }
    }
  }

  /** The list form contains no hyphen and may stand between brackets. */
  lemma {:induction false} PageListChars(pages: seq<nat>)
    ensures forall k :: 0 <= k < |PageList(pages)| ==>
      PageList(pages)[k] != '-' && PageList(pages)[k] != ']' && !IsLineTerminator(PageList(pages)[k])
    decreases |pages|
  {
    if |pages| >= 1 {
      RenderedIsNumeral(pages[0]);
      if |pages| > 1 {
        PageListChars(pages[1..]);
      }
      ListItemChars(DecimalString(pages[0]), if |pages| > 1 then ", " + PageList(pages[1..]) else "");
    }
  }

  /** `Page d` and then `rest`: no hyphen, `]` or line terminator when `rest` has none. */
  lemma ListItemChars(d: string, rest: string)
    requires Numeral(d)
    requires forall k :: 0 <= k < |rest| ==> rest[k] != '-' && rest[k] != ']' && !IsLineTerminator(rest[k])
    ensures var t := "Page " + d + rest;
      forall k :: 0 <= k < |t| ==> t[k] != '-' && t[k] != ']' && !IsLineTerminator(t[k])
  {
    var t := "Page " + d + rest;
    forall k | 0 <= k < |t|
      ensures t[k] != '-' && t[k] != ']' && !IsLineTerminator(t[k])
    {
      if 5 + |d| <= k {
        assert t[k] == rest[k - (5 + |d|)];
      } else if 5 <= k {
        assert t[k] == d[k - 5];
      }
    }
  }

  /** The pieces of the range form `word + a + "-" + b`, where the word is `Pages ` or `Page `, and where they lie. */
  lemma RangeLayout(word: string, a: string, b: string)
    requires word == "Pages " || word == "Page "
    ensures var w := |word|; var t := word + a + "-" + b;
      && |t| == w + |a| + 1 + |b|
      && t[..4] == "Page" && t[w - 1] == ' ' && (w == 6 ==> t[4] == 's')
      && t[w..w + |a|] == a && t[w + |a|] == '-' && t[w + |a| + 1..] == b
  {
    var t := word + a + "-" + b;
    assert t == word + (a + "-" + b);
    assert t[..4] == word[..4];
  }

  /** The range form contains a hyphen and may stand between brackets. */
  lemma RangeChars(word: string, a: string, b: string)
    requires word == "Pages " || word == "Page "
    requires Numeral(a) && Numeral(b)
    ensures IncludesHyphen(word + a + "-" + b)
    ensures BracketSafe(word + a + "-" + b)
  {
    RangeLayout(word, a, b);
    var w := |word|;
    var t := word + a + "-" + b;
    IncludesHyphenIff(t);
    forall k | 0 <= k < |t|
      ensures t[k] != ']' && !IsLineTerminator(t[k])
    {
      if k < 4 {
        assert t[k] == t[..4][k];
      } else if w <= k < w + |a| {
        assert t[k] == t[w..w + |a|][k - w];
      } else if w + |a| < k {
        assert t[k] == t[w + |a| + 1..][k - (w + |a| + 1)];
      }
    }
  }

  /** The range form contains a hyphen and may stand between brackets. */
  lemma RangeSpecChars(first: nat, last: nat, plural: bool)
    ensures IncludesHyphen(RangeSpec(first, last, plural))
    ensures BracketSafe(RangeSpec(first, last, plural))
  {
    RenderedIsNumeral(first);
    RenderedIsNumeral(last);
    RangeChars(if plural then "Pages " else "Page ", DecimalString(first), DecimalString(last));
  }

  /** `Page` at the start of a text, in any letter case. */
  lemma PageWordMatches(t: string)
    requires |t| >= 4 && t[..4] == "Page"
    ensures MatchesAt(t, 0, "page")
  {
    forall k | 0 <= k < 4
      ensures LowerAscii(t[0 + k]) == "page"[k]
    {
      assert t[k] == "Page"[k];
    }
  }

  /** The range pattern at the start of `word + a + "-" + b`. */
  lemma RangeAt(word: string, a: string, b: string)
    requires word == "Pages " || word == "Page "
    requires Numeral(a) && Numeral(b)
    ensures RangeAtStart(word + a + "-" + b) == Some(PageRange(DecimalValue(a), DecimalValue(b)))
  {
    var t := word + a + "-" + b;
    var w := |word|;
    RangeLayout(word, a, b);
    RangePrefix(t, w, a);
    NumbersOf(t, w, a, b);
  }

  /** After `Pages ` or `Page `, the range pattern goes on with its numbers. */
  lemma RangePrefix(t: string, w: nat, a: string)
    requires w == 5 || w == 6
    requires Numeral(a) && w + |a| <= |t| && t[w..w + |a|] == a
    requires t[..4] == "Page" && t[w - 1] == ' ' && (w == 6 ==> t[4] == 's')
    ensures RangeAtStart(t) == NumbersAt(t, w)
  {
    PageWordMatches(t);
    assert t[w] == a[0];
    SpaceRunIs(t, w - 1, 1);
    assert (if 4 < |t| && LowerAscii(t[4]) == 's' then 5 else 4) == w - 1;
  }

  /** `a-b` at index `i`, running to the end of `t`, reads back as the values of a and b. */
  lemma NumbersOf(t: string, i: nat, a: string, b: string)
    requires Numeral(a) && Numeral(b)
    requires |t| == i + |a| + 1 + |b|
    requires t[i..i + |a|] == a && t[i + |a|] == '-' && t[i + |a| + 1..] == b
    ensures NumbersAt(t, i) == Some(PageRange(DecimalValue(a), DecimalValue(b)))
  {
    var j := i + |a| + 1;
    NumbersOfSlices(t, i, a, b);
    ValueOfEqual(t[i..i + |a|], a);
    ValueOfEqual(t[j..j + |b|], b);
  }

  /** NumbersOf, with the numbers still read off `t`. */
  lemma NumbersOfSlices(t: string, i: nat, a: string, b: string)
    requires Numeral(a) && Numeral(b)
    requires |t| == i + |a| + 1 + |b|
    requires t[i..i + |a|] == a && t[i + |a|] == '-' && t[i + |a| + 1..] == b
    ensures t[i + |a| + 1..i + |a| + 1 + |b|] == b
    ensures NumbersAt(t, i)
      == Some(PageRange(DecimalValue(t[i..i + |a|]), DecimalValue(t[i + |a| + 1..i + |a| + 1 + |b|])))
  {
    var j := i + |a| + 1;
    NumberAt(t, i, a);
    assert t[j..j + |b|] == b;
    NumberAt(t, j, b);
    NumbersAtIs(t, i, |a|, |b|);
  }

  /** NumbersAt, given the lengths of the two digit runs and the hyphen between them. */
  lemma NumbersAtIs(t: string, i: nat, n1: nat, n2: nat)
    requires i + n1 < |t| && 0 < n1 && DigitRun(t, i) == n1 && t[i + n1] == '-'
    requires 0 < n2 && DigitRun(t, i + n1 + 1) == n2
    ensures NumbersAt(t, i)
      == Some(PageRange(DecimalValue(t[i..i + n1]), DecimalValue(t[i + n1 + 1..i + n1 + 1 + n2])))
  {
  }

  /** The range form reads back as its two numbers, whether `Pages` or `Page` is written. */
  lemma RangeOfSpec(first: nat, last: nat, plural: bool)
    ensures RangeAtStart(RangeSpec(first, last, plural)) == Some(PageRange(first, last))
    ensures FindRange(RangeSpec(first, last, plural)) == Some(PageRange(first, last))
  {
    RenderedIsNumeral(first);
    RenderedIsNumeral(last);
    DecimalRoundTrip(first);
    DecimalRoundTrip(last);
    RangeAt(if plural then "Pages " else "Page ", DecimalString(first), DecimalString(last));
  }

  // ---------------------------------------------------------------------------
  // A directive appended to an answer

  /** The upper-case directive keyword matches the keyword without case. */
  lemma KeywordMatches(s: string, p: nat)
    requires p + 10 <= |s| && s[p..p + 10] == "CITATIONS:"
    ensures MatchesAt(s, p, Keyword)
  {
    forall k | 0 <= k < 10
      ensures LowerAscii(s[p + k]) == Keyword[k]
    {
      assert s[p + k] == "CITATIONS:"[k];
    }
  }

  /** No match of the keyword with a start inside an answer without it, whatever follows. */
  lemma NoKeywordBefore(answer: string, spec: string, p: nat)
    requires NoKeyword(answer) && p < |answer|
    ensures !MatchesAt(answer + DirectiveText(spec), p, Keyword)
  {
    var s := answer + DirectiveText(spec);
    if p + 10 <= |answer| {
      assert !MatchesAt(answer, p, Keyword);
      var k :| 0 <= k < 10 && LowerAscii(answer[p + k]) != Keyword[k];
      assert s[p + k] == answer[p + k];
    } else {
      var j := p + 9 - |answer|;
      assert s[p + 9] == DirectiveText(spec)[j] == "CITATIONS"[j];
      assert LowerAscii(s[p + 9]) != Keyword[9];
    }
  }

  /** Where the pieces of `answer + DirectiveText(spec)` lie. */
  lemma AppendedLayout(answer: string, spec: string)
    ensures var s := answer + DirectiveText(spec); var n := |answer|;
      && |s| == n + 13 + |spec|
      && s[n..n + 10] == "CITATIONS:" && s[n + 10] == ' ' && s[n + 11] == '[' && s[|s| - 1] == ']'
      && s[n + 12..n + 12 + |spec|] == spec
      && s[..n] + s[n + 12 + |spec| + 1..] == answer
  {
    var s := answer + DirectiveText(spec);
    var n := |answer|;
    assert s[n..] == DirectiveText(spec);
    assert s[n + 12 + |spec| + 1..] == [];
  }

  /** The appended directive is a match of the pattern. */
  lemma AppendedIsDirective(answer: string, spec: string)
    requires BracketSafe(spec)
    ensures IsDirective(answer + DirectiveText(spec), Directive(|answer|, |answer| + 11, |answer| + 12 + |spec|))
  {
    var s := answer + DirectiveText(spec);
    var n := |answer|;
    AppendedLayout(answer, spec);
    KeywordMatches(s, n);
    forall k | n + 12 <= k < |s| - 1
      ensures s[k] != ']' && !IsLineTerminator(s[k])
    {
      assert s[k] == s[n + 12..n + 12 + |spec|][k - (n + 12)];
    }
  }

  /** No match of the pattern starts before the appended directive. */
  lemma AppendedIsLeftmost(answer: string, spec: string)
    requires NoKeyword(answer)
    ensures var s := answer + DirectiveText(spec);
      forall e :: IsDirective(s, e) ==> |answer| <= e.start
  {
    var s := answer + DirectiveText(spec);
    forall e | IsDirective(s, e)
      ensures |answer| <= e.start
    {
      if e.start < |answer| {
        NoKeywordBefore(answer, spec, e.start);
      }
    }
  }

  /**
   * Appended to an answer without the keyword, a directive is the one the
   * parser finds: the answer comes back trimmed, and the citations are those
   * of the bracket text.
   */
  lemma DirectiveAppended(answer: string, spec: string, total: int)
    requires NoKeyword(answer) && BracketSafe(spec)
    ensures Parse(answer + DirectiveText(spec), total)
      == Parsed(Trim(answer), WithFallback(Derived(spec, total)))
  {
    AppendedIsFound(answer, spec);
    ParseFound(answer + DirectiveText(spec), total, Directive(|answer|, |answer| + 11, |answer| + 12 + |spec|));
    CutOfAppended(answer, spec, total);
  }

  /** The parser's search stops at the appended directive. */
  lemma AppendedIsFound(answer: string, spec: string)
    requires NoKeyword(answer) && BracketSafe(spec)
    ensures FindDirective(answer + DirectiveText(spec), 0)
      == Some(Directive(|answer|, |answer| + 11, |answer| + 12 + |spec|))
  {
    AppendedIsDirective(answer, spec);
    AppendedIsLeftmost(answer, spec);
    LeftmostIsFound(answer + DirectiveText(spec), Directive(|answer|, |answer| + 11, |answer| + 12 + |spec|));
  }

  /** Cutting the appended directive out leaves the answer, and its bracket text is `spec`. */
  lemma CutOfAppended(answer: string, spec: string, total: int)
    ensures CutDirective(answer + DirectiveText(spec), Directive(|answer|, |answer| + 11, |answer| + 12 + |spec|), total)
      == Parsed(Trim(answer), WithFallback(Derived(spec, total)))
  {
    AppendedLayout(answer, spec);
    CutOfParts(answer + DirectiveText(spec), Directive(|answer|, |answer| + 11, |answer| + 12 + |spec|), total, answer, spec);
  }

  /** The list form, appended to an answer, gives the listed pages that exist, in order, duplicates kept. */
  lemma ListDirectiveRoundTrip(answer: string, pages: seq<nat>, total: int)
    requires NoKeyword(answer)
    ensures Parse(answer + DirectiveText(PageList(pages)), total)
      == Parsed(Trim(answer), WithFallback(ListCitations(pages, total)))
  {
    PageListChars(pages);
    IncludesHyphenIff(PageList(pages));
    PageTokensOfList(pages);
    DirectiveAppended(answer, PageList(pages), total);
  }

  /** The range form, appended to an answer, gives pages A to min(B, total). */
  lemma RangeDirectiveRoundTrip(answer: string, first: nat, last: nat, plural: bool, total: int)
    requires NoKeyword(answer)
    ensures Parse(answer + DirectiveText(RangeSpec(first, last, plural)), total)
      == Parsed(Trim(answer), WithFallback(RangeCitations(first, Min(last, total))))
  {
    RangeOfSpec(first, last, plural);
    RangeSpecChars(first, last, plural);
    DirectiveAppended(answer, RangeSpec(first, last, plural), total);
  }

  /**
   * `[Pages N]` without a hyphen is read by the list pattern, which cannot
   * skip the `s`: nothing is derived and the default citation applies.
   */
  lemma PluralWithoutRange(answer: string, page: nat, total: int)
    requires NoKeyword(answer)
    ensures Parse(answer + DirectiveText("Pages " + DecimalString(page)), total).citations
      == [DefaultCitation]
  {
    var t := "Pages " + DecimalString(page);
    RenderedIsNumeral(page);
    PluralChars(DecimalString(page));
    PluralNoTokens(DecimalString(page));
    DirectiveAppended(answer, t, total);
  }

  /**
   * A list that names only pages past the end of the document cites none of
   * them: the answer still comes back trimmed, with the default citation.
   */
  lemma OutOfRangePagesDropped(answer: string, pages: seq<nat>, total: int)
    requires NoKeyword(answer)
    requires forall k :: 0 <= k < |pages| ==> pages[k] > total
    ensures Parse(answer + DirectiveText(PageList(pages)), total) == Parsed(Trim(answer), [DefaultCitation])
  {
    ListDirectiveRoundTrip(answer, pages, total);
    ListCitationsNone(pages, total);
  }

  /** `Pages d` has no hyphen and may stand between brackets. */
  lemma PluralChars(d: string)
    requires Numeral(d)
    ensures !IncludesHyphen("Pages " + d) && BracketSafe("Pages " + d)
  {
    var t := "Pages " + d;
    forall k | 0 <= k < |t|
      ensures t[k] != '-' && t[k] != ']' && !IsLineTerminator(t[k])
    {
      if 6 <= k {
        assert t[k] == d[k - 6];
      }
    }
    IncludesHyphenIff(t);
  }

  /** The list pattern finds nothing in `Pages d`. */
  lemma PluralNoTokens(d: string)
    requires Numeral(d)
    ensures PageTokens("Pages " + d) == []
  {
    var t := "Pages " + d;
    assert t[..4] == "Page" && t[4] == 's';
    PageWordMatches(t);
    assert SpaceRun(t, 4) == 0;
    assert DigitRun(t, 4) == 0;
    forall k | 1 <= k < |t|
      ensures LowerAscii(t[k]) != 'p'
    {
      if 6 <= k {
        assert t[k] == d[k - 6];
      }
    }
    NoPageAfterFirst(t);
  }

  /** Text with no `p` or `P` past its first character holds tokens at most at its start. */
  lemma NoPageAfterFirst(t: string)
    requires t != [] && forall k :: 1 <= k < |t| ==> LowerAscii(t[k]) != 'p'
    requires TokenAtStart(t).None?
    ensures PageTokens(t) == []
  {
    NoPages(t[1..]);
  }

  /** Text with no `p` or `P` at all holds no token. */
  lemma {:induction false} NoPages(t: string)
    requires forall k :: 0 <= k < |t| ==> LowerAscii(t[k]) != 'p'
    ensures PageTokens(t) == []
    decreases |t|
  {
    if t != [] {
      NoTokenAtStart(t);
      NoPages(t[1..]);
    }
  }

  /** A string without `:` cannot hold the keyword, so it holds no directive. */
  lemma NoColonNoKeyword(s: string)
    requires ':' !in s
    ensures NoKeyword(s)
    ensures forall d :: !IsDirective(s, d)
  {
    forall p: nat | p <= |s|
      ensures !MatchesAt(s, p, Keyword)
    {
      if p + 10 <= |s| {
        assert s[p + 9] in s;
        assert LowerAscii(s[p + 9]) != Keyword[9];
      }
    }
  }
}
