/**
 * The start of `getAIResponse`: the document text is cut to 8000 characters
 * with a notice appended, and the prompt is a template around the file name,
 * the page count, the (cut) content and the question. The GridFS controller
 * uses a plain template; the filesystem controller's template also asks for a
 * `CITATIONS:` trailer and proposes `CITATIONS: [Pages 1-N]` as a fallback.
 */
module Prompt {
  import opened JsText
  import opened Citations
  import opened DirectiveFormats

  const MaxContentLength: nat := 8000

  const TruncationNotice := "...\n\n[Note: Content truncated due to length]"

  /** The cut: content longer than the maximum keeps its first 8000 characters and gets the notice. */
  function TruncateContent(pdfContent: string): string {
    if |pdfContent| > MaxContentLength then pdfContent[..MaxContentLength] + TruncationNotice
    else pdfContent
  }

  /** Content within the limit passes through unchanged. */
  lemma ShortContentKept(pdfContent: string)
    requires |pdfContent| <= MaxContentLength
    ensures TruncateContent(pdfContent) == pdfContent
  {
  }

  /** Longer content keeps exactly its first 8000 characters, followed by the notice and nothing else. */
  lemma LongContentCut(pdfContent: string)
    requires |pdfContent| > MaxContentLength
    ensures var r := TruncateContent(pdfContent);
      && |r| == MaxContentLength + |TruncationNotice|
      && r[..MaxContentLength] == pdfContent[..MaxContentLength]
      && r[MaxContentLength..] == TruncationNotice
  {
  }

  /** Whatever the input, the cut text starts with the input's first `min(|content|, 8000)` characters. */
  lemma TruncationKeepsPrefix(pdfContent: string)
    ensures var n := if |pdfContent| <= MaxContentLength then |pdfContent| else MaxContentLength;
      var r := TruncateContent(pdfContent);
      n <= |r| && |r| <= MaxContentLength + |TruncationNotice| && r[..n] == pdfContent[..n]
  {
  }

  /** Cutting a cut text again changes nothing: its 8000-character prefix and the notice come back. */
  lemma TruncateIdempotent(pdfContent: string)
    ensures TruncateContent(TruncateContent(pdfContent)) == TruncateContent(pdfContent)
  {
    var r := TruncateContent(pdfContent);
    if |pdfContent| > MaxContentLength {
      assert r[..MaxContentLength] == pdfContent[..MaxContentLength];
    }
  }

  // ---------------------------------------------------------------------------
  // The templates

  /** `piece` occurs in `s` at index `i`. */
  predicate OccursAt(piece: string, s: string, i: int) {
    0 <= i && i + |piece| <= |s| && s[i..i + |piece|] == piece
  }

  /**
   * A template literal: its text parts with the substituted values between
   * them, `parts[0] + holes[0] + parts[1] + ... + holes[n-1] + parts[n]`.
   */
  function Fill(parts: seq<string>, holes: seq<string>): string
    requires |parts| == |holes| + 1
    decreases |holes|
  {
    if |holes| == 0 then parts[0]
    else Fill(parts[..|parts| - 1], holes[..|holes| - 1]) + holes[|holes| - 1] + parts[|parts| - 1]
  }

  /** Where the value substituted for hole `i` starts. */
  function HoleStart(parts: seq<string>, holes: seq<string>, i: nat): nat
    requires |parts| == |holes| + 1 && i < |holes|
  {
    |Fill(parts[..i + 1], holes[..i])|
  }

  /** The filled template ends with its last text part. */
  lemma FillEndsWithPart(parts: seq<string>, holes: seq<string>)
    requires |parts| == |holes| + 1
    ensures var r := Fill(parts, holes); OccursAt(parts[|parts| - 1], r, |r| - |parts[|parts| - 1]|)
  {
    var r := Fill(parts, holes);
    var last := parts[|parts| - 1];
    if |holes| > 0 {
      assert r[|r| - |last|..] == last;
    }
  }

  /** A piece found in a prefix is found at the same index in the whole. */
  lemma OccursInPrefix(piece: string, s: string, t: string, i: int)
    requires OccursAt(piece, s, i)
    ensures OccursAt(piece, s + t, i)
  {
    assert (s + t)[i..i + |piece|] == s[i..i + |piece|];
  }

  /**
   * Around hole `i` of a filled template: text part `i` ends where the
   * value starts, and text part `i + 1` starts where the value ends.
   */
  lemma {:induction false} FillAround(parts: seq<string>, holes: seq<string>, i: nat)
    requires |parts| == |holes| + 1 && i < |holes|
    ensures var r := Fill(parts, holes); var at := HoleStart(parts, holes, i);
      && OccursAt(parts[i], r, at - |parts[i]|)
      && OccursAt(holes[i], r, at)
      && OccursAt(parts[i + 1], r, at + |holes[i]|)
    decreases |holes|
  {
    if i == |holes| - 1 {
      FillAroundLast(parts, holes);
    } else {
      var p' := parts[..|parts| - 1];
      var h' := holes[..|holes| - 1];
      FillAround(p', h', i);
      assert p'[..i + 1] == parts[..i + 1] && h'[..i] == holes[..i];
      assert p'[i] == parts[i] && p'[i + 1] == parts[i + 1] && h'[i] == holes[i];
      var front := Fill(p', h');
      var tail := holes[|holes| - 1] + parts[|parts| - 1];
      var at := HoleStart(parts, holes, i);
      assert Fill(parts, holes) == front + tail;
      OccursInPrefix(parts[i], front, tail, at - |parts[i]|);
      OccursInPrefix(holes[i], front, tail, at);
      OccursInPrefix(parts[i + 1], front, tail, at + |holes[i]|);
    }
  }

  /** FillAround for the last hole. */
  lemma FillAroundLast(parts: seq<string>, holes: seq<string>)
    requires |parts| == |holes| + 1 && 0 < |holes|
    ensures var i := |holes| - 1; var r := Fill(parts, holes); var at := HoleStart(parts, holes, i);
      && OccursAt(parts[i], r, at - |parts[i]|)
      && OccursAt(holes[i], r, at)
      && OccursAt(parts[i + 1], r, at + |holes[i]|)
  {
    var i := |holes| - 1;
    var p' := parts[..|parts| - 1];
    var h' := holes[..|holes| - 1];
    var front := Fill(p', h');
    assert p' == parts[..i + 1] && h' == holes[..i];
    FillEndsWithPart(p', h');
    assert p'[|p'| - 1] == parts[i];
    OccursInPrefix(parts[i], front, holes[i] + parts[i + 1], |front| - |parts[i]|);
    var r := front + (holes[i] + parts[i + 1]);
    assert Fill(parts, holes) == r;
    assert r[|front|..|front| + |holes[i]|] == holes[i];
    assert r[|front| + |holes[i]|..] == parts[i + 1];
  }

  /** Which controller's template. */
  datatype PromptStyle = Plain | Citing

  const Intro :=
    "You are an AI assistant helping users "
    + "understand a PDF document. Based on "
    + "the document content provided, answer "
    + "the user's question accurately and concisely.\n\n"
    + "Document: \""

  const PagesLabel := "\"\nTotal Pages: "

  const ContentLabel := "\nContent: "

  const QuestionLabel := "\n\nUser Question: "

  const CommonInstructions :=
    "\n\nInstructions:\n1. Answer the question "
    + "based solely on the document content "
    + "provided\n2. Be concise, accurate, and "
    + "helpful\n3. If the information exists "
    + "in the document, provide a clear answer"

  /** Steps 4 to 6 of the citing template, up to the format it asks for. */
  const CitingSteps :=
    "\n4. If the answer isn't clearly available "
    + "in the provided content, state this "
    + "clearly\n5. When referencing specific "
    + "information, try to indicate which part "
    + "of the content it comes from\n"
    + "6. IMPORTANT: At the end of your response, "
    + "if you found relevant information, add "
    + "citations in this exact format:\n   "

  /** The instructions of the citing template, up to the format it asks for. */
  const CitingHead := CommonInstructions + CitingSteps

  /** The trailer format the citing template asks for. */
  const FormatExample := "CITATIONS: [Page X, Page Y]"

  const EstimationGuide :=
    " (where X, Y are your best estimates of which "
    + "pages contain the relevant information)\n"
    + "   \n   Guidelines for page estimation:\n"
    + "   - For documents with "

  const GuidelinesText :=
    " total pages\n   - If referencing content "
    + "from the beginning: use pages 1-2\n"
    + "   - If referencing content from the "
    + "middle: use middle page numbers\n"
    + "   - If referencing content from throughout: "
    + "use multiple page numbers\n"
    + "   - If you cannot determine specific "
    + "pages, use: "

  /** The text of the fallback directive up to the page count. */
  const FallbackOpening := "CITATIONS: [Pages 1-"

  const AnswerCue := "\n\nAnswer:"

  /** The text parts of each controller's template literal. */
  function TemplateParts(style: PromptStyle): (parts: seq<string>)
    ensures |parts| == (if style == Plain then 5 else 7)
  {
    match style
    case Plain => [Intro, PagesLabel, ContentLabel, QuestionLabel, CommonInstructions + "." + AnswerCue]
    case Citing =>
      [Intro, PagesLabel, ContentLabel, QuestionLabel, CitingHead + FormatExample + EstimationGuide,
       GuidelinesText + FallbackOpening, "]" + AnswerCue]
  }

  /** The values substituted into it: `${filename}`, `${pdfPages}`, `${truncatedContent}`, `${question}`, and twice more `${pdfPages}`. */
  function TemplateHoles(style: PromptStyle, filename: string, pdfPages: nat, content: string, question: string): (holes: seq<string>)
    ensures |holes| == |TemplateParts(style)| - 1
  {
    var n := DecimalString(pdfPages);
    match style
    case Plain => [filename, n, content, question]
    case Citing => [filename, n, content, question, n, n]
  }

  /** The prompt for a file name, a page count, the cut content and the question. */
  function BuildPrompt(style: PromptStyle, filename: string, pdfPages: nat, content: string, question: string): string {
    Fill(TemplateParts(style), TemplateHoles(style, filename, pdfPages, content, question))
  }

  /** FillAround for a hole whose value is known by name. */
  lemma HoleValue(parts: seq<string>, holes: seq<string>, i: nat, value: string)
    requires |parts| == |holes| + 1 && i < |holes|
    requires holes[i] == value
    ensures OccursAt(value, Fill(parts, holes), HoleStart(parts, holes, i))
  {
    FillAround(parts, holes, i);
  }

  /**
   * The prompt holds the file name, the page count, the content and the
   * question, in that order, each where its `${...}` stands in the template.
   */
  lemma PromptEmbeds(style: PromptStyle, filename: string, pdfPages: nat, content: string, question: string)
    ensures var r := BuildPrompt(style, filename, pdfPages, content, question);
      var parts := TemplateParts(style);
      var holes := TemplateHoles(style, filename, pdfPages, content, question);
      && OccursAt(filename, r, HoleStart(parts, holes, 0))
      && OccursAt(DecimalString(pdfPages), r, HoleStart(parts, holes, 1))
      && OccursAt(content, r, HoleStart(parts, holes, 2))
      && OccursAt(question, r, HoleStart(parts, holes, 3))
  {
    var parts := TemplateParts(style);
    var holes := TemplateHoles(style, filename, pdfPages, content, question);
    HoleValue(parts, holes, 0, filename);
    HoleValue(parts, holes, 1, DecimalString(pdfPages));
    HoleValue(parts, holes, 2, content);
    HoleValue(parts, holes, 3, question);
  }

  /** The directive the citing template proposes when no pages can be told apart: every page. */
  function FallbackDirective(pdfPages: nat): string {
    DirectiveText(RangeSpec(1, pdfPages, true))
  }

  lemma FallbackSpelled(pdfPages: nat)
    ensures FallbackDirective(pdfPages) == FallbackOpening + DecimalString(pdfPages) + "]"
  {
    assert DecimalString(1) == "1";
  }

  /** The citing template carries the fallback directive `CITATIONS: [Pages 1-N]`, with N the page count. */
  lemma CitingPromptProposesFallback(filename: string, pdfPages: nat, content: string, question: string)
    ensures var r := BuildPrompt(Citing, filename, pdfPages, content, question);
      var at := HoleStart(TemplateParts(Citing), TemplateHoles(Citing, filename, pdfPages, content, question), 5);
      OccursAt(FallbackDirective(pdfPages), r, at - |FallbackOpening|)
  {
    FallbackBetween(TemplateParts(Citing), TemplateHoles(Citing, filename, pdfPages, content, question), GuidelinesText, AnswerCue, pdfPages);
  }

  /** The citing template asks for the trailer format `CITATIONS: [Page X, Page Y]`, right after its steps 1 to 6. */
  lemma CitingPromptShowsFormat(filename: string, pdfPages: nat, content: string, question: string)
    ensures var r := BuildPrompt(Citing, filename, pdfPages, content, question);
      var parts := TemplateParts(Citing);
      var holes := TemplateHoles(Citing, filename, pdfPages, content, question);
      OccursAt(FormatExample, r, HoleStart(parts, holes, 3) + |question| + |CitingHead|)
  {
    var parts := TemplateParts(Citing);
    var holes := TemplateHoles(Citing, filename, pdfPages, content, question);
    InPart(parts, holes, 3, question, CitingHead, FormatExample, EstimationGuide);
  }

  /** A piece of the text part after hole `i` is found in the filled template, past the value and what precedes the piece. */
  lemma InPart(parts: seq<string>, holes: seq<string>, i: nat, value: string, x: string, piece: string, y: string)
    requires |parts| == |holes| + 1 && i < |holes|
    requires holes[i] == value && parts[i + 1] == x + piece + y
    ensures OccursAt(piece, Fill(parts, holes), HoleStart(parts, holes, i) + |value| + |x|)
  {
    FillAround(parts, holes, i);
    PieceOfOccurrence(Fill(parts, holes), parts[i + 1], HoleStart(parts, holes, i) + |value|, x, piece, y);
  }

  /** Where `x + piece + y` occurs, `piece` occurs `|x|` further on. */
  lemma PieceOfOccurrence(r: string, t: string, at: int, x: string, piece: string, y: string)
    requires OccursAt(t, r, at) && t == x + piece + y
    ensures OccursAt(piece, r, at + |x|)
  {
    var w := r[at..at + |t|];
    forall k | 0 <= k < |piece|
      ensures r[at + |x| + k] == piece[k]
    {
      assert r[at + |x| + k] == w[|x| + k] == t[|x| + k];
    }
  }

  /** A template whose hole 5 is the page count, between `...CITATIONS: [Pages 1-` and `]...`, spells the fallback directive there. */
  lemma FallbackBetween(parts: seq<string>, holes: seq<string>, x: string, y: string, pdfPages: nat)
    requires |parts| == |holes| + 1 && 5 < |holes|
    requires parts[5] == x + FallbackOpening && holes[5] == DecimalString(pdfPages) && parts[6] == "]" + y
    ensures OccursAt(FallbackDirective(pdfPages), Fill(parts, holes), HoleStart(parts, holes, 5) - |FallbackOpening|)
  {
    FillAround(parts, holes, 5);
    Spliced(Fill(parts, holes), parts[5], x, FallbackOpening, holes[5], DecimalString(pdfPages), parts[6], "]", y, HoleStart(parts, holes, 5));
    FallbackSpelled(pdfPages);
  }

  /** Reading `x + p`, then `h`, then `q + y` back to back in `r` finds `p + h + q`. */
  lemma Spliced(r: string, before: string, x: string, p: string, value: string, h: string, after: string, q: string, y: string, at: int)
    requires before == x + p && value == h && after == q + y
    requires OccursAt(before, r, at - |before|)
    requires OccursAt(value, r, at)
    requires OccursAt(after, r, at + |value|)
    ensures OccursAt(p + h + q, r, at - |p|)
  {
    var lo := at - |p|;
    assert r[lo..at] == (x + p)[|x|..];
    assert r[at + |h|..at + |h| + |q|] == (q + y)[..|q|];
    assert r[lo..lo + |p + h + q|] == r[lo..at] + r[at..at + |h|] + r[at + |h|..at + |h| + |q|];
  }

  /**
   * An answer that ends with the proposed fallback directive, parsed against
   * the same page count, cites every page from 1 to N in order (and the
   * default page 1 when N is 0).
   */
  lemma FallbackCitesEveryPage(answer: string, pdfPages: nat)
    requires NoKeyword(answer)
    ensures var p := Parse(answer + FallbackDirective(pdfPages), pdfPages);
      && p.cleanResponse == Trim(answer)
      && (pdfPages >= 1 ==> |p.citations| == pdfPages)
      && (pdfPages >= 1 ==> forall k :: 0 <= k < pdfPages ==> p.citations[k] == PageCitation(k + 1))
      && (pdfPages == 0 ==> p.citations == [DefaultCitation])
  {
    RangeDirectiveRoundTrip(answer, 1, pdfPages, true, pdfPages);
    RangeCitationsAt(1, Min(pdfPages, pdfPages));
  }
}
