# Document question answering, modelled in Dafny

The server of the AI notebook assistant answers questions about uploaded PDF
files. Two chat controllers implement the same pipeline:

- `server/controller/chatController.js` reads PDFs from a GridFS bucket, by
  ObjectId or by file name, and sends a plain prompt;
- `server/controllers/chatController.js` reads them from the `uploads` folder
  by file name, and its prompt asks the model to end the answer with a
  `CITATIONS: [...]` directive.

Both controllers do the same things:

- They cache one extraction record per key in a module-level `pdfStore`. A
  record holds the full text, the page count and the text cut into page
  segments of `ceil(length / numpages)` characters.
- They cut the text to 8000 characters and fill a prompt template. They send
  it to a completion service and parse the reply. The parser takes the
  leftmost `CITATIONS: [...]` directive out of the reply and turns its bracket
  text into page citations: either a range or a list of pages.
- They fall back to a default citation of page 1, and to a fixed apology when
  the service fails.

The project has one module per concern:

- `Wrappers`: `Option` and `Outcome`.
- `JsText`: the JavaScript text operations the parser relies on. These are the
  `\s` set, which is also the set `trim` removes, `trim` itself, digit runs,
  `parseInt` of a digit run and number-to-string.
- `Citations`: `extractCitationsFromResponse`. It has three parts:
  - the directive pattern, stated as a ghost reference predicate on positions;
  - a search for its leftmost match, proved to be exactly that match;
  - the range and list branches, and the default-citation rule.

  The controllers' loops and pushes are methods proved against the `Parse`
  function.
- `DirectiveFormats`: the two directive forms the prompt asks for, rendered as
  text, with round-trip lemmas through the parser.
- `Pages`: `extractPdfWithPages`. This covers JavaScript `substring`,
  `Math.ceil` of the division and the page loop, proved against the reference
  page list `Segments`.
- `Prompt`: the truncation and the two prompt templates. Each template is a
  template literal `Fill(parts, holes)`, and lemmas locate each substituted
  value and the proposed fallback directive in the prompt.
- `Answer`: `getAIResponse`, with the completion service as a function
  parameter, proved against the reference function `AIAnswer`.
- `Endpoints`: the store type, its invariant (every record's pages are the
  segments of its text) and the response bodies.
- `GridFsChat` and `FsChat`: one controller each.
  - A `ChatController` class holds `pdfStore`. Its handler methods are proved
    against reference functions (`Chat`, `ExtractById`, `ExtractByName`,
    `Extract`) of the old store and the request.
  - Lemmas state the caching, validation and error behaviour of the
    endpoints.

In these places the code behaves in ways a reader might not expect, and the
model follows the code:

- **Page numbers.** The list branch only checks `n <= totalPages`. Page 0 is
  therefore kept, and so is page 0 as the start of a range. No page number is
  negative, because a digit run never is.
- **Apology.** The apology on failure is one fixed sentence that does not name
  the cause, and its citation list is empty.
- **Zero pages.** A document with zero pages gets an empty page list.
- **Concurrency.** There is no single-flight: the handlers check the store
  and then fill it, with nothing in between.
- **Filesystem extract.** `extractPdfContent` with an empty file name reaches
  the uploads folder itself. Assuming the uploads folder exists, reading it as
  a file fails and the answer is 500, not 404.
- **GridFS keys.** The GridFS controller keys the store by `fileId ||
  filename`. A file id and a file name share one key space.

## Model

| member | source | states |
|---|---|---|
| JsText.SpaceRunMaximal | server/controller/chatController.js:88 | the white-space run `\s*` consumes is all white space and cannot be extended |
| JsText.DigitRunMaximal | server/controller/chatController.js:97 | the digit run `\d+` consumes is all digits and cannot be extended |
| JsText.DecimalRoundTrip | server/controller/chatController.js:99-100 | `parseInt` of the decimal rendering of a number gives the number back |
| JsText.DecimalStringOfValue | server/controller/chatController.js:99-100 | rendering the value of a digit string without a superfluous leading zero gives the string back |
| JsText.DecimalStringDigits | server/controllers/chatController.js:24 | the page count substituted into the prompt is all digits, with a leading zero only for zero |
| JsText.TrimSlice | server/controller/chatController.js:92 | `trim` returns a contiguous slice with only white space cut on either side and none left at its ends |
| JsText.TrimIdempotent | server/controller/chatController.js:92 | trimming twice is trimming once |
| JsText.TrimUnchanged | server/controller/chatController.js:92 | a string without white space at its ends is its own trim |
| Citations.CloseFrom | server/controller/chatController.js:88 | the lazy `(.*?)\]` stops at a `]` with no `]` or line terminator before it |
| Citations.CloseFromFinds | server/controller/chatController.js:88 | every `]` reachable without crossing a `]` or line terminator is the one the lazy group finds |
| Citations.DirectiveAtSound | server/controller/chatController.js:88-89 | a match reported at an index is a directive starting there |
| Citations.DirectiveAtComplete | server/controller/chatController.js:88-89 | every directive is found at its own start index |
| Citations.DirectiveUnique | server/controller/chatController.js:88-89 | two directives with the same start are equal: the pattern's match at an index is determined |
| Citations.FindDirectiveSound | server/controller/chatController.js:88-89 | the search reports only directives, at or after its starting index |
| Citations.FindDirectiveIsLeftmostMatch | server/controller/chatController.js:88-89 | the search finds nothing exactly when no directive exists, and otherwise the leftmost one |
| Citations.RangeCitationsAt | server/controller/chatController.js:101-106 | a range yields exactly pages first, first+1, ..., last, each with its label, and nothing when last < first |
| Citations.PushRange | server/controller/chatController.js:101-106 | the loop pushes the citations of pages `start` to `min(end, totalPages)` |
| Citations.ListCitationsCount | server/controller/chatController.js:111-119 | one citation per listed page that does not exceed the total |
| Citations.ListCitationsListed | server/controller/chatController.js:111-119 | every list citation is the labelled citation of a listed page within the total |
| Citations.ListCitationsAll | server/controller/chatController.js:111-119 | when every listed page exists, each is cited, in order |
| Citations.ListCitationsNone | server/controller/chatController.js:111-119 | when no listed page exists, nothing is cited |
| Citations.ListCitationsAppend | server/controller/chatController.js:111-119 | the citations of two token lists one after the other are those of each, in that order |
| Citations.ListCitationsAround | server/controller/chatController.js:111-119 | each listed page is cited, when within the total, after the citations of the pages before it and before those after it |
| Citations.PushListed | server/controller/chatController.js:109-120 | the `forEach` pushes exactly the list citations of the matched pages |
| Citations.IncludesHyphenIff | server/controller/chatController.js:96 | the left-to-right scan holds exactly when the bracket text contains a hyphen |
| Citations.CitationsFromText | server/controller/chatController.js:94-121 | the branch on the bracket text builds the citations the range or list rule derives |
| Citations.WithFallback | server/controller/chatController.js:124-129 | after the default-citation rule the list is never empty |
| Citations.Parse | server/controller/chatController.js:84-132 | the parser always returns at least one citation |
| Citations.ExtractCitationsFromResponse | server/controller/chatController.js:84-132 | the imperative parser returns the reference parse of the reply, with at least one citation |
| Citations.ParseWithoutDirective | server/controller/chatController.js:86-91 | without a directive the reply comes back exactly as it was, untrimmed, with the default citation |
| Citations.ParseWithDirective | server/controller/chatController.js:88-94 | with directives, only the leftmost one is cut out, the rest is trimmed, and its bracket text gives the citations |
| Citations.RangeBranch | server/controller/chatController.js:96-107 | a bracket text with a hyphen and a range match cites pages first to min(last, total), in order |
| Citations.HyphenWithoutRange | server/controller/chatController.js:96-98 | a hyphen without a range match yields only the default citation |
| Citations.ListBranch | server/controller/chatController.js:108-121 | without a hyphen, each `Page N` token is cited in its own place between the citations of the tokens before and after it, pages above the total dropped, duplicates and page 0 kept |
| DirectiveFormats.PageTokensOfList | server/controller/chatController.js:109-112 | the global `Page\s*(\d+)` match of a rendered `Page X, Page Y` list gives back the listed pages |
| DirectiveFormats.RangeOfSpec | server/controller/chatController.js:97-100 | the range pattern reads back `A` and `B` from `Pages A-B` or `Page A-B` |
| DirectiveFormats.DirectiveAppended | server/controller/chatController.js:88-121 | a directive appended to an answer without the keyword is the one parsed: the answer comes back trimmed |
| DirectiveFormats.ListDirectiveRoundTrip | server/controller/chatController.js:88-121 | `CITATIONS: [Page X, Page Y]` appended to an answer cites exactly the listed pages within the total, in order |
| DirectiveFormats.RangeDirectiveRoundTrip | server/controller/chatController.js:88-121 | `CITATIONS: [Pages A-B]` appended to an answer cites pages A to min(B, total) |
| DirectiveFormats.OutOfRangePagesDropped | server/controller/chatController.js:111-129 | a list naming only pages past the end cites none of them and falls back to the default citation |
| DirectiveFormats.PluralWithoutRange | server/controller/chatController.js:108-121 | `[Pages N]` without a hyphen matches no `Page\s*(\d+)` token and gets only the default citation |
| DirectiveFormats.NoColonNoKeyword | server/controller/chatController.js:88 | a text without `:` holds no directive |
| Pages.Clamp | server/controller/chatController.js:146 | a clamped `substring` index lies within the string and keeps in-range indices |
| Pages.SubstringInRange | server/controller/chatController.js:146 | `substring` within bounds and in order is the plain slice |
| Pages.SubstringSymmetric | server/controller/chatController.js:146 | `substring` does not depend on the order of its indices |
| Pages.SubstringPastEnd | server/controller/chatController.js:146 | `substring` at or past the end is empty |
| Pages.CeilDivBounds | server/controller/chatController.js:138 | `Math.ceil(a / b)` is the least count of b-sized pages that covers a |
| Pages.OffsetIsProduct | server/controller/chatController.js:142-143 | the page offset is `i * avgCharsPerPage` |
| Pages.ExtractPdfWithPages | server/controller/chatController.js:134-159 | a parse failure is rethrown; otherwise the record is the text, the page count and the reference page list |
| Pages.PagesUpToNumbered | server/controller/chatController.js:141-148 | the loop makes one record per iteration, numbered from 1 in order |
| Pages.PagesUpToContent | server/controller/chatController.js:142-146 | record i holds the text from `i * avg` to `(i + 1) * avg`, cut off at the end |
| Pages.SegmentsNumbered | server/controller/chatController.js:141-148 | there are exactly `numpages` page records, numbered 1 to numpages, and none for zero pages |
| Pages.SliceIsWindow | server/controller/chatController.js:142-146 | each page is the window of the text between consecutive multiples of the average, cut off at the end |
| Pages.SliceBounded | server/controller/chatController.js:142-146 | no page holds more than the average number of characters |
| Pages.SegmentsBounded | server/controller/chatController.js:138-148 | with the ceiling average, every page holds at most `ceil(length / numpages)` characters |
| Pages.PagesUpToJoined | server/controller/chatController.js:141-148 | the first k records concatenate to the text up to `k * avg` |
| Pages.JoinedAppend | server/controller/chatController.js:144-147 | a record holding the next window extends the concatenation by that window |
| Pages.SegmentsJoined | server/controller/chatController.js:138-148 | the pages partition the text: they concatenate back to the whole text whenever there is a page |
| Pages.EmptyTextPages | server/controllers/chatController.js:148-158 | an empty text gives `numpages` empty pages |
| Pages.TrailingPagesEmpty | server/controller/chatController.js:142-146 | a page that starts at or past the end of the text is empty |
| Pages.FiveCharactersFourPages | server/controller/chatController.js:138-148 | five characters over four pages give pages "ab", "cd", "e" and "" |
| Prompt.ShortContentKept | server/controller/chatController.js:14-19 | content of at most 8000 characters is sent unchanged |
| Prompt.LongContentCut | server/controller/chatController.js:14-19 | longer content keeps exactly its first 8000 characters, followed by the truncation notice |
| Prompt.TruncationKeepsPrefix | server/controller/chatController.js:14-19 | the cut content starts with the first min(length, 8000) characters and is bounded in length |
| Prompt.TruncateIdempotent | server/controller/chatController.js:14-19 | cutting a cut content again changes nothing |
| Prompt.FillEndsWithPart | server/controllers/chatController.js:21-45 | a filled template ends with its last text part |
| Prompt.OccursInPrefix | server/controllers/chatController.js:21-45 | text found in a prefix is found at the same index in any extension |
| Prompt.FillAround | server/controllers/chatController.js:21-45 | in a filled template, each substituted value sits between the text parts around it |
| Prompt.TemplateParts | server/controller/chatController.js:21-34 | the plain template has five text parts around four substitutions, the citing one seven around six |
| Prompt.HoleValue | server/controllers/chatController.js:23-27 | each substituted value occurs at its hole's start |
| Prompt.PromptEmbeds | server/controllers/chatController.js:21-45 | the file name, the page count, the cut content and the question occur in the prompt at their places |
| Prompt.FallbackSpelled | server/controllers/chatController.js:43 | the fallback directive reads `CITATIONS: [Pages 1-N]` with N the page count |
| Prompt.CitingPromptProposesFallback | server/controllers/chatController.js:43 | the citing prompt carries `CITATIONS: [Pages 1-N]` for the document's page count |
| Prompt.CitingPromptShowsFormat | server/controllers/chatController.js:35-36 | the citing prompt shows the format `CITATIONS: [Page X, Page Y]` after the question |
| Prompt.InPart | server/controllers/chatController.js:21-45 | a piece of a text part occurs in the filled template at its offset within the part |
| Prompt.PieceOfOccurrence | server/controllers/chatController.js:21-45 | a piece of an occurring text occurs at its offset |
| Prompt.FallbackBetween | server/controllers/chatController.js:43 | a directive split across a text part, a hole and the next part occurs whole in the filled template |
| Prompt.Spliced | server/controllers/chatController.js:43 | the end of one part, a value and the start of the next part occur contiguously |
| Prompt.FallbackCitesEveryPage | server/controllers/chatController.js:43 | an answer followed by the proposed fallback cites every page 1 to N in order, and only the default for zero pages |
| Answer.GetAIResponse | server/controller/chatController.js:6-82 | the method returns the reference answer for the key and what the service replied to the prompt |
| Answer.FailureContained | server/controller/chatController.js:74-81 | the citations are empty exactly when the key is missing or the service failed, and then the answer is the apology |
| Answer.ReplyIsParsed | server/controller/chatController.js:63-73 | a reply is parsed for citations and has at least one |
| Answer.NoContentDefault | server/controller/chatController.js:64-66 | empty or absent content becomes the no-content text with the default citation |
| Answer.PlainReplyKept | server/controller/chatController.js:86-91 | a reply without a directive comes back untouched with the default citation |
| Answer.FallbackReplyCitesEveryPage | server/controllers/chatController.js:43 | a reply ending in the proposed fallback cites every page of the document and keeps the trimmed answer |
| Endpoints.StoreExtraction | server/controller/chatController.js:244-245 | caching a fresh extraction keeps every record's pages equal to the segments of its text |
| GridFsChat.LowerAll | server/controller/chatController.js:171 | lower-casing keeps the length and lower-cases each character |
| GridFsChat.ObjectIdOf | server/controller/chatController.js:171 | a string is an ObjectId exactly when it has 24 hexadecimal digits, and then names them in lower case |
| GridFsChat.FindFirst | server/controller/chatController.js:288-290 | `findOne` by `_id`, or by `filename` as at line 200, finds the first file with that value, and nothing only when no file has it |
| GridFsChat.DownloadById | server/controller/chatController.js:162-191 | the download succeeds exactly when the id is an ObjectId some file has |
| GridFsChat.DownloadByFilename | server/controller/chatController.js:194-212 | the download succeeds exactly when some file has the name |
| GridFsChat.ChatController.HandleChat | server/controller/chatController.js:214-273 | the handler's answer and new store are those of the reference `Chat`, and every record stays segmented |
| GridFsChat.ChatController.ExtractPdfContent | server/controller/chatController.js:275-316 | the handler's answer and new store are those of the reference extraction by id |
| GridFsChat.ChatController.ExtractPdfContentByFilename | server/controller/chatController.js:319-346 | the handler's answer and new store are those of the reference extraction by name |
| GridFsChat.ChatValidatesFirst | server/controller/chatController.js:218-228 | a request without a question, or naming no file, gets its 400 with the store unchanged |
| GridFsChat.ChatHit | server/controller/chatController.js:233-248 | a cached key answers from the cache, leaves the store as it is, and depends on neither the bucket nor the parser |
| GridFsChat.ChatMiss | server/controller/chatController.js:233-246 | on a miss the loaded record is cached under the key; a failed load answers 500 and changes nothing |
| GridFsChat.ChatTouchesOnlyKey | server/controller/chatController.js:231-246 | the key is the id if present, else the name; no other key changes and no record is replaced |
| GridFsChat.ChatAnswerEchoes | server/controller/chatController.js:257-265 | an answer echoes the question, names the file, and reports the page count of the record under the key |
| GridFsChat.ChatCitations | server/controller/chatController.js:250-260 | an answer's citations are empty exactly when the key or the service failed, and then the response is the apology |
| GridFsChat.LoadPrefersId | server/controller/chatController.js:236-242 | a request with an id loads by id, whatever its file name |
| GridFsChat.ExtractOverwrites | server/controller/chatController.js:298-332 | both extract endpoints replace the record under their key on success, and otherwise leave the store as it is |
| GridFsChat.ExtractMissingFile | server/controller/chatController.js:285-296 | a valid ObjectId no file has gets 404, and a string that is no ObjectId gets 500 |
| GridFsChat.ExtractThenChat | server/controller/chatController.js:329-332 | after an extraction by name, a chat about that name answers from the cache |
| FsChat.ReadUpload | server/controllers/chatController.js:182-190 | a name is absent exactly when it is non-empty and not in the folder; the empty name names the folder, which cannot be read |
| FsChat.ChatController.HandleChat | server/controllers/chatController.js:171-220 | the handler's answer and new store are those of the reference `Chat`, and every record stays segmented |
| FsChat.ChatController.ExtractPdfContent | server/controllers/chatController.js:222-249 | the handler's answer and new store are those of the reference `Extract` |
| FsChat.ChatRefusals | server/controllers/chatController.js:175-188 | a missing question or file name gives 400, and a file not in the folder gives 404, with the store unchanged |
| FsChat.ChatHit | server/controllers/chatController.js:181-196 | a cached name answers from the cache without reading the folder or parsing |
| FsChat.ChatMiss | server/controllers/chatController.js:181-194 | on a miss the file's record is cached under its name; a failed parse answers 500 and changes nothing |
| FsChat.ChatAnswerEchoes | server/controllers/chatController.js:196-213 | an answer echoes the question and name, reports the cached page count, and only the name's record may be added |
| FsChat.ExtractOverwrites | server/controllers/chatController.js:225-242 | extraction replaces the record under the name on success, whatever was cached, and otherwise changes nothing |
| FsChat.FallbackAnswerCitesEveryPage | server/controllers/chatController.js:43 | with the citing prompt, a model answer ending in the proposed fallback cites every page of the document |

## Left out

- HTTP plumbing is not modelled. Express requests and responses become
  request datatypes and response datatypes.
- The `details: error.message` field of the GridFS controller's 500 answers
  is left out, because error messages come from foreign code.
- The completion request is a function parameter from prompt to
  `Completion`. These parts of it are left out: the `fetch` call, its URL and
  headers, the `Bearer` token, the model name, `max_tokens` and
  `temperature`.
- The JSON decoding of the reply becomes the `Unreadable` case and the
  optional content.
- `process.env.OPENROUTER_API_KEY` is a parameter.
- pdf-parse is a function parameter from bytes to text and page count. Its
  `info` metadata is not kept in the record.
- The GridFS bucket is a sequence of stored files, and its download streams
  and `pdfs.files` queries become lookups in that sequence.
- `new ObjectId` is modelled only for 24-digit hexadecimal strings. Its
  12-character form and non-string arguments are left out.
- The uploads folder is a map from file name to bytes. `path.join` and path
  traversal through `..` in a file name are not modelled.
- Concurrency is not modelled: each handler runs to completion on its own.
- `numpages` and the text length are unbounded naturals. JavaScript numbers
  are doubles, and string lengths count UTF-16 code units; neither is
  modelled.
- `parseInt` of a digit run is exact here. Precision loss on digit runs past
  2^53 is not modelled.
- `extractedAt` timestamps and console logging are left out.
- Request fields that are not strings are not modelled. A missing field is
  the empty string, which is falsy like `undefined`.
- The `uploadController` files, the routes and the client are not part of
  this model.
