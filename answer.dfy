/**
 * `getAIResponse`: after the API key check, the cut content goes into the
 * prompt, the prompt goes to the completion service, and the reply is parsed
 * for citations. Every failure on the way (no key, a non-ok status, a body
 * that cannot be read) ends in the same fixed apology with no citations.
 */
module Answer {
  import opened Wrappers
  import opened JsText
  import opened Citations
  import opened DirectiveFormats
  import opened Prompt

  /**
   * What the completion service yields for a prompt: a response whose `ok`
   * is false, a body that cannot be read as the expected JSON (a rejected
   * `response.json()`, or no `choices` array), or the content of the first
   * choice, absent when there is no first choice, message or content.
   */
  datatype Completion = NotOk(status: int) | Unreadable | Reply(content: Option<string>)

  /** The `{ response, citations }` object `getAIResponse` returns. */
  datatype AIResult = AIResult(response: string, citations: seq<Citation>)

  const Apology := "Sorry, I encountered an error while processing your question. Please try again."

  const NoContent := "Sorry, I could not generate a response."

  /** `content || "Sorry, I could not generate a response."`: absent and empty content are both falsy. */
  function ReplyText(content: Option<string>): string {
    if content.Some? && content.value != "" then content.value else NoContent
  }

  /** A key that is unset or empty is falsy, and the call throws before anything is sent. */
  predicate HasKey(apiKey: Option<string>) {
    apiKey.Some? && apiKey.value != ""
  }

  /** Reference definition of what `getAIResponse` returns, given the key and what the service answered. */
  function AIAnswer(apiKey: Option<string>, completion: Completion, pdfPages: nat): AIResult {
    if !HasKey(apiKey) then AIResult(Apology, [])
    else match completion
      case NotOk(_) => AIResult(Apology, [])
      case Unreadable => AIResult(Apology, [])
      case Reply(content) =>
        var p := Parse(ReplyText(content), pdfPages);
        AIResult(p.cleanResponse, p.citations)
  }

  /** The prompt `getAIResponse` sends for these arguments. */
  function PromptFor(style: PromptStyle, question: string, pdfContent: string, filename: string, pdfPages: nat): string {
    BuildPrompt(style, filename, pdfPages, TruncateContent(pdfContent), question)
  }

  /**
   * `getAIResponse(question, pdfContent, filename, pdfPages)`. The
   * environment's `OPENROUTER_API_KEY` is `apiKey`; `complete` stands for the
   * request to the service and the decoding of its answer.
   */
  method GetAIResponse(style: PromptStyle, apiKey: Option<string>, complete: string -> Completion,
                       question: string, pdfContent: string, filename: string, pdfPages: nat)
    returns (r: AIResult)
    ensures r == AIAnswer(apiKey, complete(PromptFor(style, question, pdfContent, filename, pdfPages)), pdfPages)
  {
    if !HasKey(apiKey) {
      return AIResult(Apology, []);
    }
    var truncatedContent := TruncateContent(pdfContent);
    var prompt := BuildPrompt(style, filename, pdfPages, truncatedContent, question);
    var response := complete(prompt);
    if !response.Reply? {
      return AIResult(Apology, []);
    }
    var aiResponse := ReplyText(response.content);
    var cleanResponse, citations := ExtractCitationsFromResponse(aiResponse, pdfPages);
    r := AIResult(cleanResponse, citations);
  }

  // ---------------------------------------------------------------------------
  // Properties

  /**
   * Failures are contained: the citations are empty exactly when the key is
   * missing or the service failed, and then the response is the apology.
   */
  lemma FailureContained(apiKey: Option<string>, completion: Completion, pdfPages: nat)
    ensures var r := AIAnswer(apiKey, completion, pdfPages);
      && (r.citations == [] <==> !HasKey(apiKey) || !completion.Reply?)
      && (r.citations == [] ==> r.response == Apology)
  {
  }

  /** A successful reply is parsed: its citations are never empty. */
  lemma ReplyIsParsed(apiKey: Option<string>, content: Option<string>, pdfPages: nat)
    requires HasKey(apiKey)
    ensures var r := AIAnswer(apiKey, Reply(content), pdfPages);
      && Parsed(r.response, r.citations) == Parse(ReplyText(content), pdfPages)
      && |r.citations| >= 1
  {
  }

  /** Empty or absent content becomes the no-content text, which holds no directive and so gets the default citation. */
  lemma NoContentDefault(apiKey: Option<string>, content: Option<string>, pdfPages: nat)
    requires HasKey(apiKey) && (content.None? || content.value == "")
    ensures AIAnswer(apiKey, Reply(content), pdfPages) == AIResult(NoContent, [DefaultCitation])
  {
    NoColonNoKeyword(NoContent);
    ParseWithoutDirective(NoContent, pdfPages);
  }

  /** A reply without a `CITATIONS:` directive comes back untouched, untrimmed, with the default citation. */
  lemma PlainReplyKept(apiKey: Option<string>, content: string, pdfPages: nat)
    requires HasKey(apiKey) && content != "" && forall d :: !IsDirective(content, d)
    ensures AIAnswer(apiKey, Reply(Some(content)), pdfPages) == AIResult(content, [DefaultCitation])
  {
    ParseWithoutDirective(content, pdfPages);
  }

  /**
   * A reply that follows the citing prompt's fallback, an answer followed by
   * `CITATIONS: [Pages 1-N]` for the document's N pages, cites every page of
   * the document in order, and keeps the trimmed answer.
   */
  lemma FallbackReplyCitesEveryPage(apiKey: Option<string>, answer: string, pdfPages: nat)
    requires HasKey(apiKey) && NoKeyword(answer) && pdfPages >= 1
    ensures var r := AIAnswer(apiKey, Reply(Some(answer + FallbackDirective(pdfPages))), pdfPages);
      && r.response == Trim(answer)
      && |r.citations| == pdfPages
      && forall k :: 0 <= k < pdfPages ==> r.citations[k] == PageCitation(k + 1)
  {
    assert |answer + FallbackDirective(pdfPages)| > 0 by {
      FallbackSpelled(pdfPages);
    }
    FallbackCitesEveryPage(answer, pdfPages);
  }
}
