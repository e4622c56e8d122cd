/**
 * The citation parser of both chat controllers (`extractCitationsFromResponse`):
 * it looks for the leftmost `CITATIONS: [...]` directive in the model's reply,
 * removes it from the visible answer and turns its bracket text into page
 * citations, with a single default citation when nothing could be derived.
 *
 * The regular expressions of the source are written here as a hand-written
 * scanner over the reply: keyword match, optional white space, the bracket,
 * then either a page range (when the bracket text holds a hyphen) or the list
 * of `Page <digits>` tokens.
 */
module Citations {
  import opened Wrappers
  import opened JsText

  datatype Citation = Citation(page: nat, text: string)

  /** What the parser returns: the answer without the directive, and the citations. */
  datatype Parsed = Parsed(cleanResponse: string, citations: seq<Citation>)

  /** The citation substituted when the reply yields none. */
  const DefaultCitation := Citation(1, "Content referenced from document")

  /** The citation the parser makes for page `n`. */
  function PageCitation(n: nat): Citation {
    Citation(n, "Referenced content from page " + DecimalString(n))
  }

  // ---------------------------------------------------------------------------
  // The directive /CITATIONS:\s*\[(.*?)\]/i

  /** The directive keyword, in lower case because it is matched without case. */
  const Keyword := "citations:"

  /** Where a directive lies in the reply: the keyword at `start`, `[` at `open`, `]` at `close`. */
  datatype Directive = Directive(start: nat, open: nat, close: nat)

  /** No ']' and no line terminator in `s[i..c]`: what a lazy `.*?` before `\]` may consume. */
  ghost predicate Unbroken(s: string, i: nat, c: nat)
    requires i <= c <= |s|
  {
    forall k :: i <= k < c ==> s[k] != ']' && !IsLineTerminator(s[k])
  }

  /**
   * Reference definition of a match of the directive pattern, stated on
   * positions: the keyword without case, only white space up to `[`, then
   * characters other than `]` and line terminators up to the `]`.
   */
  ghost predicate IsDirective(s: string, d: Directive) {
    && d.start + |Keyword| <= d.open < d.close < |s|
    && MatchesAt(s, d.start, Keyword)
    && (forall k :: d.start + |Keyword| <= k < d.open ==> IsSpace(s[k]))
    && s[d.open] == '['
    && s[d.close] == ']'
    && Unbroken(s, d.open + 1, d.close)
  }

  /** The lazy `(.*?)\]`: the first `]` at or after `i`, unless a line terminator comes first. */
  function CloseFrom(s: string, i: nat): (r: Option<nat>)
    requires i <= |s|
    ensures r.Some? ==> i <= r.value < |s| && s[r.value] == ']' && Unbroken(s, i, r.value)
    decreases |s| - i
  {
    if i == |s| then None
    else if s[i] == ']' then Some(i)
    else if IsLineTerminator(s[i]) then None
    else CloseFrom(s, i + 1)
  }

  /** A `]` reached from `i` without crossing a `]` or a line terminator is the one CloseFrom finds. */
  lemma {:induction false} CloseFromFinds(s: string, i: nat, c: nat)
    requires i <= c < |s| && s[c] == ']' && Unbroken(s, i, c)
    ensures CloseFrom(s, i) == Some(c)
    decreases c - i
  {
    if i < c {
      CloseFromFinds(s, i + 1, c);
    }
  }

  /** The directive match that starts at index `p`, if there is one. */
  function DirectiveAt(s: string, p: nat): (r: Option<Directive>)
    requires p <= |s|
    ensures r.Some? ==> p == r.value.start < r.value.open < r.value.close < |s|
  {
    if !MatchesAt(s, p, Keyword) then None
    else
      var open := p + |Keyword| + SpaceRun(s, p + |Keyword|);
      if open < |s| && s[open] == '[' then
        match CloseFrom(s, open + 1)
        case Some(close) => Some(Directive(p, open, close))
        case None => None
      else None
  }

  /** The leftmost directive match at or after index `from` (what `String.prototype.match` finds). */
  function FindDirective(s: string, from: nat): (r: Option<Directive>)
    requires from <= |s|
    ensures r.Some? ==> from <= r.value.start < r.value.open < r.value.close < |s|
    decreases |s| - from
  {
    match DirectiveAt(s, from)
    case Some(d) => Some(d)
    case None => if from == |s| then None else FindDirective(s, from + 1)
  }

  /** What DirectiveAt reports is a directive starting at `p`. */
  lemma DirectiveAtSound(s: string, p: nat)
    requires p <= |s|
    ensures DirectiveAt(s, p).Some? ==> DirectiveAt(s, p).value.start == p && IsDirective(s, DirectiveAt(s, p).value)
  {
    if p + |Keyword| <= |s| {
      SpaceRunMaximal(s, p + |Keyword|);
    }
  }

  /** What FindDirective reports is a directive starting at or after `from`. */
  lemma {:induction false} FindDirectiveSound(s: string, from: nat)
    requires from <= |s|
    ensures FindDirective(s, from).Some? ==>
      from <= FindDirective(s, from).value.start && IsDirective(s, FindDirective(s, from).value)
    decreases |s| - from
  {
    DirectiveAtSound(s, from);
    if DirectiveAt(s, from).None? && from < |s| {
      FindDirectiveSound(s, from + 1);
    }
  }

  /** At a given start there is at most one directive, and DirectiveAt finds it. */
  lemma DirectiveAtComplete(s: string, d: Directive)
    requires IsDirective(s, d)
    ensures DirectiveAt(s, d.start) == Some(d)
  {
    var p := d.start;
    var open := p + |Keyword| + SpaceRun(s, p + |Keyword|);
    SpaceRunMaximal(s, p + |Keyword|);
    assert open == d.open;
    CloseFromFinds(s, open + 1, d.close);
  }

  /** Two directives with the same start are the same directive. */
  lemma DirectiveUnique(s: string, d1: Directive, d2: Directive)
    requires IsDirective(s, d1) && IsDirective(s, d2) && d1.start == d2.start
    ensures d1 == d2
  {
    DirectiveAtComplete(s, d1);
    DirectiveAtComplete(s, d2);
  }

  /** FindDirective finds the leftmost directive at or after `from`, and nothing when there is none. */
  lemma FindDirectiveLeftmost(s: string, from: nat, d: Directive)
    requires from <= d.start && IsDirective(s, d)
    ensures FindDirective(s, from).Some?
    ensures FindDirective(s, from).value.start <= d.start
  {
    DirectiveAtComplete(s, d);
    FindDirectiveReaches(s, from, d.start);
  }

  /** The search from `from` stops at or before any position `p` where a directive starts. */
  lemma {:induction false} FindDirectiveReaches(s: string, from: nat, p: nat)
    requires from <= p <= |s| && DirectiveAt(s, p).Some?
    ensures FindDirective(s, from).Some? && FindDirective(s, from).value.start <= p
    decreases p - from
  {
    if DirectiveAt(s, from).Some? {
      FindDirectiveHere(s, from);
    } else {
      FindDirectiveReaches(s, from + 1, p);
      FindDirectiveSkips(s, from, p);
    }
  }

  /** Where DirectiveAt finds a directive, the search stops there. */
  lemma FindDirectiveHere(s: string, from: nat)
    requires from <= |s| && DirectiveAt(s, from).Some?
    ensures FindDirective(s, from).Some? && FindDirective(s, from).value.start == from
  {
  }

  /** Where DirectiveAt finds nothing, the search moves one character on. */
  lemma FindDirectiveSkips(s: string, from: nat, bound: nat)
    requires from < |s| && DirectiveAt(s, from).None?
    requires FindDirective(s, from + 1).Some? && FindDirective(s, from + 1).value.start <= bound
    ensures FindDirective(s, from).Some? && FindDirective(s, from).value.start <= bound
  {
  }

  /** The directive FindDirective reports is exactly the leftmost match of the pattern. */
  lemma FindDirectiveIsLeftmostMatch(s: string)
    ensures FindDirective(s, 0).None? <==> forall d :: !IsDirective(s, d)
    ensures FindDirective(s, 0).Some? ==>
      forall d :: IsDirective(s, d) ==> FindDirective(s, 0).value.start <= d.start
    ensures FindDirective(s, 0).Some? ==> IsDirective(s, FindDirective(s, 0).value)
  {
    FindDirectiveSound(s, 0);
    forall d | IsDirective(s, d)
      ensures FindDirective(s, 0).Some? && FindDirective(s, 0).value.start <= d.start
    {
      FindDirectiveLeftmost(s, 0, d);
    }
  }

  // ---------------------------------------------------------------------------
  // The range branch /Pages?\s*(\d+)-(\d+)/i

  datatype PageRange = PageRange(first: nat, last: nat)

  /** A match of the range pattern at the very start of `t`. */
  function RangeAtStart(t: string): Option<PageRange> {
    if !MatchesAt(t, 0, "page") then None
    else
      var afterS := if 4 < |t| && LowerAscii(t[4]) == 's' then 5 else 4;
      NumbersAt(t, afterS + SpaceRun(t, afterS))
  }

  /** `(\d+)-(\d+)` at index `i`: two digit runs around one hyphen. */
  function NumbersAt(t: string, i: nat): Option<PageRange>
    requires i <= |t|
  {
    var n1 := DigitRun(t, i);
    if n1 == 0 || i + n1 == |t| || t[i + n1] != '-' then None
    else
      var j := i + n1 + 1;
      var n2 := DigitRun(t, j);
      if n2 == 0 then None
      else Some(PageRange(DecimalValue(t[i..i + n1]), DecimalValue(t[j..j + n2])))
  }

  /** The leftmost match of the range pattern in `t`. */
  function FindRange(t: string): Option<PageRange> {
    if |t| == 0 then None
    else if RangeAtStart(t).Some? then RangeAtStart(t)
    else FindRange(t[1..])
  }

  /** Pages `first` to `last` inclusive, in increasing order (empty when `last < first`). */
  function RangeCitations(first: nat, last: int): seq<Citation>
    decreases last - first
  {
    if last < first then [] else RangeCitations(first, last - 1) + [PageCitation(last)]
  }

  /** The range citations are exactly pages first, first+1, ..., last. */
  lemma {:induction false} RangeCitationsAt(first: nat, last: int)
    ensures |RangeCitations(first, last)| == if last < first then 0 else last - first + 1
    ensures forall k :: 0 <= k < |RangeCitations(first, last)| ==>
      RangeCitations(first, last)[k] == PageCitation(first + k)
    decreases last - first
  {
    if first <= last {
      RangeCitationsAt(first, last - 1);
    }
  }

  // ---------------------------------------------------------------------------
  // The list branch /Page\s*(\d+)/gi

  /** A match of `Page\s*(\d+)` at the very start of `t`: the page number and the match length. */
  datatype Token = Token(page: nat, length: nat)

  function TokenAtStart(t: string): (r: Option<Token>)
    ensures r.Some? ==> 0 < r.value.length <= |t|
  {
    if !MatchesAt(t, 0, "page") then None
    else
      var d := 4 + SpaceRun(t, 4);
      var n := DigitRun(t, d);
      if n == 0 then None else Some(Token(DecimalValue(t[d..d + n]), d + n))
  }

  /** The page numbers of all non-overlapping matches, left to right (a global `match`). */
  function PageTokens(t: string): seq<nat>
    decreases |t|
  {
    if |t| == 0 then []
    else match TokenAtStart(t)
      case Some(tok) => [tok.page] + PageTokens(t[tok.length..])
      case None => PageTokens(t[1..])
  }

  /** The citations for the listed pages that do not exceed `total`, in order, duplicates kept. */
  function ListCitations(pages: seq<nat>, total: int): seq<Citation> {
    if |pages| == 0 then []
    else
      var last := pages[|pages| - 1];
      ListCitations(pages[..|pages| - 1], total) + (if last <= total then [PageCitation(last)] else [])
  }

  /** How many of `pages` do not exceed `total`. */
  function CountWithin(pages: seq<nat>, total: int): nat {
    if |pages| == 0 then 0
    else CountWithin(pages[..|pages| - 1], total) + (if pages[|pages| - 1] <= total then 1 else 0)
  }

  /** One list citation per listed page that does not exceed `total`. */
  lemma {:induction false} ListCitationsCount(pages: seq<nat>, total: int)
    ensures |ListCitations(pages, total)| == CountWithin(pages, total)
  {
    if pages != [] {
      ListCitationsCount(pages[..|pages| - 1], total);
    }
  }

  /** Each list citation is the labelled citation of a listed page within bounds. */
  lemma {:induction false} ListCitationsListed(pages: seq<nat>, total: int)
    ensures forall c :: c in ListCitations(pages, total) ==>
      c.page in pages && c.page <= total && c == PageCitation(c.page)
  {
    if pages != [] {
      var init := pages[..|pages| - 1];
      ListCitationsListed(init, total);
      assert forall x :: x in init ==> x in pages;
    }
  }

  /** When every listed page exists, each one is cited, in order. */
  lemma {:induction false} ListCitationsAll(pages: seq<nat>, total: int)
    requires forall k :: 0 <= k < |pages| ==> pages[k] <= total
    ensures ListCitations(pages, total) == seq(|pages|, k requires 0 <= k < |pages| => PageCitation(pages[k]))
  {
    if pages != [] {
      ListCitationsAll(pages[..|pages| - 1], total);
    }
  }

  /** When no listed page exists, nothing is cited. */
  lemma {:induction false} ListCitationsNone(pages: seq<nat>, total: int)
    requires forall k :: 0 <= k < |pages| ==> pages[k] > total
    ensures ListCitations(pages, total) == []
  {
    if pages != [] {
      ListCitationsNone(pages[..|pages| - 1], total);
    }
  }

  /** The list rule works page by page: the citations of two lists one after the other are those of each, in that order. */
  lemma {:induction false} ListCitationsAppend(a: seq<nat>, b: seq<nat>, total: int)
    ensures ListCitations(a + b, total) == ListCitations(a, total) + ListCitations(b, total)
    decreases |b|
  {
    if b != [] {
      var b' := b[..|b| - 1];
      assert (a + b)[..|a + b| - 1] == a + b';
      ListCitationsAppend(a, b', total);
    } else {
      assert a + b == a;
    }
  }

  /**
   * Each listed page is cited in its own place: after the citations of the
   * pages before it and before those of the pages after it, and only when it
   * does not exceed `total`.
   */
  lemma ListCitationsAround(pages: seq<nat>, total: int, i: nat)
    requires i < |pages|
    ensures ListCitations(pages, total)
      == ListCitations(pages[..i], total)
       + (if pages[i] <= total then [PageCitation(pages[i])] else [])
       + ListCitations(pages[i + 1..], total)
  {
    assert pages == pages[..i] + [pages[i]] + pages[i + 1..];
    assert ([] + [pages[i]])[..0] == [];
    ListCitationsAppend(pages[..i] + [pages[i]], pages[i + 1..], total);
    ListCitationsAppend(pages[..i], [pages[i]], total);
  }

  // ---------------------------------------------------------------------------
  // The parser

  /** `citationText.includes("-")`, scanned left to right. */
  predicate IncludesHyphen(t: string) {
    |t| > 0 && (t[0] == '-' || IncludesHyphen(t[1..]))
  }

  lemma {:induction false} IncludesHyphenIff(t: string)
    ensures IncludesHyphen(t) <==> '-' in t
  {
    if t != [] {
      IncludesHyphenIff(t[1..]);
      assert t == [t[0]] + t[1..];
    }
  }

  /** The citations derived from the bracket text, before the default is substituted. */
  function Derived(citationText: string, total: int): seq<Citation> {
    if IncludesHyphen(citationText) then
      match FindRange(citationText)
      case Some(r) => RangeCitations(r.first, Min(r.last, total))
      case None => []
    else ListCitations(PageTokens(citationText), total)
  }

  /** The default-citation rule: an empty list becomes the single default citation. */
  function WithFallback(cs: seq<Citation>): (r: seq<Citation>)
    ensures |r| >= 1
  {
    if |cs| == 0 then [DefaultCitation] else cs
  }

  /** The reply with directive `d` cut out and trimmed, and the citations of its bracket text. */
  function CutDirective(response: string, d: Directive, total: int): (r: Parsed)
    requires d.start < d.open < d.close < |response|
    ensures |r.citations| >= 1
  {
    Parsed(Trim(response[..d.start] + response[d.close + 1..]),
           WithFallback(Derived(response[d.open + 1..d.close], total)))
  }

  /** What `extractCitationsFromResponse(response, total)` returns. */
  function Parse(response: string, total: int): (r: Parsed)
    ensures |r.citations| >= 1
  {
    match FindDirective(response, 0)
    case None => Parsed(response, [DefaultCitation])
    case Some(d) => CutDirective(response, d, total)
  }

  /** The `for` loop of the range branch: pushes pages `start` to `min(end, totalPages)`. */
  method PushRange(start: nat, end: nat, totalPages: int) returns (citations: seq<Citation>)
    ensures citations == RangeCitations(start, Min(end, totalPages))
  {
    citations := [];
    var i: int := start;
    while i <= Min(end, totalPages)
      invariant start <= i
      invariant i <= Min(end, totalPages) + 1 || i == start
      invariant citations == RangeCitations(start, i - 1)
      decreases Min(end, totalPages) - i
    {
      citations := citations + [PageCitation(i)];
      i := i + 1;
    }
  }

  /** The `forEach` of the list branch: pushes each matched page that does not exceed `totalPages`. */
  method PushListed(pageMatches: seq<nat>, totalPages: int) returns (citations: seq<Citation>)
    ensures citations == ListCitations(pageMatches, totalPages)
  {
    citations := [];
    for j := 0 to |pageMatches|
      invariant citations == ListCitations(pageMatches[..j], totalPages)
    {
      var pageNum := pageMatches[j];
      assert pageMatches[..j + 1][..j] == pageMatches[..j];
      if pageNum <= totalPages {
        citations := citations + [PageCitation(pageNum)];
      }
    }
    assert pageMatches[..|pageMatches|] == pageMatches;
  }

  /** The branch on the bracket text: a range when it holds a hyphen, otherwise the page list. */
  method CitationsFromText(citationText: string, totalPages: int) returns (citations: seq<Citation>)
    ensures citations == Derived(citationText, totalPages)
  {
    citations := [];
    if IncludesHyphen(citationText) {
      var rangeMatch := FindRange(citationText);
      if rangeMatch.Some? {
        citations := PushRange(rangeMatch.value.first, rangeMatch.value.last, totalPages);
      }
    } else {
      citations := PushListed(PageTokens(citationText), totalPages);
    }
  }

  /** The parser of the controllers: the same steps, with the citation list built by loops and pushes. */
  method ExtractCitationsFromResponse(response: string, totalPages: int)
    returns (cleanResponse: string, citations: seq<Citation>)
    ensures Parsed(cleanResponse, citations) == Parse(response, totalPages)
    ensures |citations| >= 1
  {
    citations := [];
    cleanResponse := response;
    var citationMatch := FindDirective(response, 0);
    if citationMatch.Some? {
      var m := citationMatch.value;
      cleanResponse := Trim(response[..m.start] + response[m.close + 1..]);
      citations := CitationsFromText(response[m.open + 1..m.close], totalPages);
      ParseFound(response, totalPages, m);
      CutAround(response, m, totalPages, response[..m.start] + response[m.close + 1..]);
      CutInner(response, m, totalPages, response[m.open + 1..m.close]);
    }
    if |citations| == 0 {
      citations := [DefaultCitation];
    }
  }

  // ---------------------------------------------------------------------------
  // Properties of the parser

  /** Without a directive the reply is returned exactly as it came, untrimmed, with the default citation. */
  lemma ParseWithoutDirective(response: string, total: int)
    requires forall d :: !IsDirective(response, d)
    ensures Parse(response, total) == Parsed(response, [DefaultCitation])
  {
    FindDirectiveIsLeftmostMatch(response);
  }

  /**
   * With a directive, the answer is the trimmed reply with only the leftmost
   * directive cut out (text after it, and later directives, stay), and the
   * citations come from that directive's bracket text.
   */
  lemma ParseWithDirective(response: string, total: int, d: Directive)
    requires IsDirective(response, d)
    requires forall e :: IsDirective(response, e) ==> d.start <= e.start
    ensures Parse(response, total) == CutDirective(response, d, total)
  {
    LeftmostIsFound(response, d);
  }

  /** CutDirective in terms of the text around the directive and the text between its brackets. */
  lemma CutOfParts(response: string, d: Directive, total: int, around: string, inner: string)
    requires d.start < d.open < d.close < |response|
    requires response[..d.start] + response[d.close + 1..] == around
    requires response[d.open + 1..d.close] == inner
    ensures CutDirective(response, d, total) == Parsed(Trim(around), WithFallback(Derived(inner, total)))
  {
    CutAround(response, d, total, around);
    CutInner(response, d, total, inner);
  }

  lemma CutAround(response: string, d: Directive, total: int, around: string)
    requires d.start < d.open < d.close < |response|
    requires response[..d.start] + response[d.close + 1..] == around
    ensures CutDirective(response, d, total).cleanResponse == Trim(around)
  {
    TrimOfEqual(response[..d.start] + response[d.close + 1..], around);
  }

  lemma CutInner(response: string, d: Directive, total: int, inner: string)
    requires d.start < d.open < d.close < |response|
    requires response[d.open + 1..d.close] == inner
    ensures CutDirective(response, d, total).citations == WithFallback(Derived(inner, total))
  {
    CitationsOfEqual(response[d.open + 1..d.close], inner, total);
  }

  /** Equal texts trim alike. */
  lemma TrimOfEqual(x: string, y: string)
    requires x == y
    ensures Trim(x) == Trim(y)
  {
  }

  /** Equal bracket texts give the same citations. */
  lemma CitationsOfEqual(x: string, y: string, total: int)
    requires x == y
    ensures WithFallback(Derived(x, total)) == WithFallback(Derived(y, total))
  {
  }

  /** Once the search has found a directive, the parser cuts that one out. */
  lemma ParseFound(response: string, total: int, d: Directive)
    requires FindDirective(response, 0) == Some(d)
    ensures Parse(response, total) == CutDirective(response, d, total)
  {
  }

  /** The leftmost directive is the one FindDirective reports. */
  lemma LeftmostIsFound(s: string, d: Directive)
    requires IsDirective(s, d)
    requires forall e :: IsDirective(s, e) ==> d.start <= e.start
    ensures FindDirective(s, 0) == Some(d)
  {
    FindDirectiveIsLeftmostMatch(s);
    var f := FindDirective(s, 0).value;
    DirectiveUnique(s, d, f);
  }

  /** Range branch: pages A, A+1, ..., min(B, total), each with its label; the default when that is empty. */
  lemma RangeBranch(citationText: string, total: int)
    requires IncludesHyphen(citationText) && FindRange(citationText).Some?
    ensures var r := FindRange(citationText).value;
      var cs := Derived(citationText, total);
      && |cs| == (if Min(r.last, total) < r.first then 0 else Min(r.last, total) - r.first + 1)
      && (forall k :: 0 <= k < |cs| ==> cs[k] == PageCitation(r.first + k))
  {
    var r := FindRange(citationText).value;
    RangeCitationsAt(r.first, Min(r.last, total));
  }

  /** A hyphen without a range match derives nothing, so the default citation applies. */
  lemma HyphenWithoutRange(citationText: string, total: int)
    requires IncludesHyphen(citationText) && FindRange(citationText).None?
    ensures WithFallback(Derived(citationText, total)) == [DefaultCitation]
  {
  }

  /**
   * List branch: the `Page N` tokens are cited in their order, those above
   * `total` dropped where they stand, duplicates and page 0 kept.
   */
  lemma ListBranch(citationText: string, total: int)
    requires !IncludesHyphen(citationText)
    ensures var pages := PageTokens(citationText);
      var cs := Derived(citationText, total);
      && |cs| == CountWithin(pages, total)
      && (forall c :: c in cs ==> c.page in pages && c.page <= total && c == PageCitation(c.page))
      && ((forall k :: 0 <= k < |pages| ==> pages[k] <= total) ==>
            cs == seq(|pages|, k requires 0 <= k < |pages| => PageCitation(pages[k])))
      && (forall i :: 0 <= i < |pages| ==>
            cs == ListCitations(pages[..i], total)
                + (if pages[i] <= total then [PageCitation(pages[i])] else [])
                + ListCitations(pages[i + 1..], total))
  {
    var pages := PageTokens(citationText);
    ListCitationsCount(pages, total);
    ListCitationsListed(pages, total);
    forall i | 0 <= i < |pages|
      ensures ListCitations(pages, total)
        == ListCitations(pages[..i], total)
         + (if pages[i] <= total then [PageCitation(pages[i])] else [])
         + ListCitations(pages[i + 1..], total)
    {
      ListCitationsAround(pages, total, i);
    }
    if forall k :: 0 <= k < |pages| ==> pages[k] <= total {
      ListCitationsAll(pages, total);
    }
  }
}
