/**
 * The filesystem controller: PDF files are read from the uploads folder by
 * name, `pdfStore` caches their extraction under that name, and the prompt
 * asks the model for a `CITATIONS:` trailer.
 */
module FsChat {
  import opened Wrappers
  import opened JsText
  import opened Pages
  import opened Citations
  import opened DirectiveFormats
  import opened Prompt
  import opened Answer
  import opened Endpoints

  /** The uploads folder: the bytes of each file, by name. */
  type Folder = map<string, Bytes>

  /** A request body; a field that is missing is modelled as the empty string, which is just as falsy. */
  datatype ChatRequest = ChatRequest(question: string, filename: string)

  /**
   * `existsSync` and `readFileSync` on `uploads/<filename>`. The empty name
   * denotes the folder itself: it exists, but reading it as a file throws.
   */
  function ReadUpload(folder: Folder, filename: string): (r: Option<Outcome<Bytes>>)
    ensures r.None? <==> filename != "" && filename !in folder
    ensures r == Some(Failed) <==> filename == ""
  {
    if filename == "" then Some(Failed)
    else if filename in folder then Some(Ok(folder[filename]))
    else None
  }

  /** The answer to a chat request about the cached record `entry`. */
  function ChatAnswer(req: ChatRequest, entry: Extracted, apiKey: Option<string>, complete: string -> Completion): ChatResponse {
    var ai := AIAnswer(apiKey, complete(PromptFor(Citing, req.question, entry.text, req.filename, entry.numpages)), entry.numpages);
    Answered(req.question, ai.response, ai.citations, entry.numpages, req.filename)
  }

  /** Extraction of what was read: a failed read or parse fails. */
  function Load(read: Outcome<Bytes>, pdfParse: Bytes -> Outcome<PdfData>): Outcome<Extracted> {
    match read
    case Failed => Failed
    case Ok(b) =>
      match pdfParse(b)
      case Failed => Failed
      case Ok(data) => Ok(Extraction(data))
  }

  /** Reference definition of `handleChat`: its answer and the store afterwards. */
  function Chat(store: Store, folder: Folder, pdfParse: Bytes -> Outcome<PdfData>, apiKey: Option<string>,
                complete: string -> Completion, req: ChatRequest): (ChatResponse, Store)
  {
    if req.question == "" || req.filename == "" then (ChatError(400, "Question and filename are required"), store)
    else if req.filename in store then (ChatAnswer(req, store[req.filename], apiKey, complete), store)
    else
      match ReadUpload(folder, req.filename)
      case None => (ChatError(404, PdfNotFound), store)
      case Some(read) =>
        match Load(read, pdfParse)
        case Failed => (ChatError(500, ChatFailed), store)
        case Ok(entry) => (ChatAnswer(req, entry, apiKey, complete), store[req.filename := entry])
  }

  /** Reference definition of `extractPdfContent`: extraction by name, which always replaces the cached record. */
  function Extract(store: Store, folder: Folder, pdfParse: Bytes -> Outcome<PdfData>, filename: string): (ExtractResponse, Store) {
    match ReadUpload(folder, filename)
    case None => (ExtractError(404, PdfNotFound), store)
    case Some(read) =>
      match read
      case Failed => (ExtractError(500, ExtractFailed), store)
      case Ok(b) =>
        match pdfParse(b)
        case Failed => (ExtractError(500, ExtractFailed), store)
        case Ok(data) => (ExtractedByName(filename, data.numpages), store[filename := Extraction(data)])
  }

  /** The controller's module state. The folder, pdf-parse, the API key and the completion service are passed to each request. */
  class ChatController {
    var pdfStore: Store

    predicate Valid()
      reads this
    {
      Segmented(pdfStore)
    }

    constructor()
      ensures pdfStore == map[] && Valid()
    {
      pdfStore := map[];
    }

    /** `handleChat(req, res)`. */
    method HandleChat(folder: Folder, pdfParse: Bytes -> Outcome<PdfData>, apiKey: Option<string>,
                      complete: string -> Completion, req: ChatRequest)
      returns (res: ChatResponse)
      requires Valid()
      modifies this
      ensures Valid()
      ensures (res, pdfStore) == Chat(old(pdfStore), folder, pdfParse, apiKey, complete, req)
    {
      if req.question == "" || req.filename == "" {
        return ChatError(400, "Question and filename are required");
      }
      if req.filename !in pdfStore {
        var file := ReadUpload(folder, req.filename);
        if file.None? {
          return ChatError(404, PdfNotFound);
        }
        // A non-empty name that exists is a file, so reading it succeeds.
        var dataBuffer := file.value;
        assert dataBuffer == Ok(folder[req.filename]);
        var pdfData := ExtractPdfWithPages(pdfParse(dataBuffer.value));
        if pdfData.Failed? {
          return ChatError(500, ChatFailed);
        }
        StoreExtraction(pdfStore, req.filename, pdfParse(dataBuffer.value).value);
        pdfStore := pdfStore[req.filename := pdfData.value];
      }
      var pdfContent := pdfStore[req.filename];
      var aiResult := GetAIResponse(Citing, apiKey, complete, req.question, pdfContent.text, req.filename, pdfContent.numpages);
      res := Answered(req.question, aiResult.response, aiResult.citations, pdfContent.numpages, req.filename);
    }

    /** `extractPdfContent(req, res)` with `req.params.filename`. */
    method ExtractPdfContent(folder: Folder, pdfParse: Bytes -> Outcome<PdfData>, filename: string)
      returns (res: ExtractResponse)
      requires Valid()
      modifies this
      ensures Valid()
      ensures (res, pdfStore) == Extract(old(pdfStore), folder, pdfParse, filename)
    {
      var file := ReadUpload(folder, filename);
      if file.None? {
        return ExtractError(404, PdfNotFound);
      }
      var dataBuffer := file.value;
      if dataBuffer.Failed? {
        return ExtractError(500, ExtractFailed);
      }
      var pdfData := ExtractPdfWithPages(pdfParse(dataBuffer.value));
      if pdfData.Failed? {
        return ExtractError(500, ExtractFailed);
      }
      StoreExtraction(pdfStore, filename, pdfParse(dataBuffer.value).value);
      pdfStore := pdfStore[filename := pdfData.value];
      res := ExtractedByName(filename, pdfData.value.numpages);
    }
  }

  // ---------------------------------------------------------------------------
  // Properties of the handlers

  /** A missing question or file name gives 400, and a file absent from the folder gives 404; the store is unchanged in both cases. */
  lemma ChatRefusals(store: Store, folder: Folder, pdfParse: Bytes -> Outcome<PdfData>, apiKey: Option<string>,
                     complete: string -> Completion, req: ChatRequest)
    ensures req.question == "" || req.filename == "" ==>
      Chat(store, folder, pdfParse, apiKey, complete, req) == (ChatError(400, "Question and filename are required"), store)
    ensures req.question != "" && req.filename != "" && req.filename !in store && req.filename !in folder ==>
      Chat(store, folder, pdfParse, apiKey, complete, req) == (ChatError(404, PdfNotFound), store)
  {
  }

  /** A cached name answers from the cache, without reading the folder or parsing anything. */
  lemma ChatHit(store: Store, folder: Folder, folder': Folder, pdfParse: Bytes -> Outcome<PdfData>, pdfParse': Bytes -> Outcome<PdfData>,
                apiKey: Option<string>, complete: string -> Completion, req: ChatRequest)
    requires req.question != "" && req.filename != "" && req.filename in store
    ensures Chat(store, folder, pdfParse, apiKey, complete, req) == (ChatAnswer(req, store[req.filename], apiKey, complete), store)
    ensures Chat(store, folder, pdfParse, apiKey, complete, req) == Chat(store, folder', pdfParse', apiKey, complete, req)
  {
  }

  /** On a miss the store gains the record of the file under its name, and only that; a failed parse answers 500 and changes nothing. */
  lemma ChatMiss(store: Store, folder: Folder, pdfParse: Bytes -> Outcome<PdfData>, apiKey: Option<string>,
                 complete: string -> Completion, req: ChatRequest)
    requires req.question != "" && req.filename != "" && req.filename !in store && req.filename in folder
    ensures var (res, store') := Chat(store, folder, pdfParse, apiKey, complete, req);
      && (pdfParse(folder[req.filename]).Failed? ==> res == ChatError(500, ChatFailed) && store' == store)
      && (pdfParse(folder[req.filename]).Ok? ==>
            var entry := Extraction(pdfParse(folder[req.filename]).value);
            store' == store[req.filename := entry] && res == ChatAnswer(req, entry, apiKey, complete))
  {
  }

  /** An answer echoes the question and the file name, and reports the page count of the record cached under that name. */
  lemma ChatAnswerEchoes(store: Store, folder: Folder, pdfParse: Bytes -> Outcome<PdfData>, apiKey: Option<string>,
                         complete: string -> Completion, req: ChatRequest)
    ensures var (res, store') := Chat(store, folder, pdfParse, apiKey, complete, req);
      res.Answered? ==>
        && res.question == req.question
        && res.filename == req.filename
        && req.filename in store'
        && res.numPages == store'[req.filename].numpages
        && (forall k :: k in store ==> k in store' && store'[k] == store[k])
        && (forall k :: k in store' ==> k in store || k == req.filename)
  {
  }

  /** `extractPdfContent` replaces the record under the name on success, whatever was cached before; otherwise nothing changes. */
  lemma ExtractOverwrites(store: Store, folder: Folder, pdfParse: Bytes -> Outcome<PdfData>, filename: string)
    ensures var (res, store') := Extract(store, folder, pdfParse, filename);
      && (res.ExtractedByName? ==>
            && filename in folder
            && pdfParse(folder[filename]).Ok?
            && store' == store[filename := Extraction(pdfParse(folder[filename]).value)]
            && res.numPages == pdfParse(folder[filename]).value.numpages)
      && (!res.ExtractedByName? ==> store' == store)
    ensures filename == "" ==> Extract(store, folder, pdfParse, filename) == (ExtractError(500, ExtractFailed), store)
    ensures filename != "" && filename !in folder ==> Extract(store, folder, pdfParse, filename) == (ExtractError(404, PdfNotFound), store)
  {
  }

  /**
   * With the citing template, a model that answers with the proposed
   * fallback directive gets every page of the cached document cited.
   */
  lemma FallbackAnswerCitesEveryPage(entry: Extracted, apiKey: Option<string>, complete: string -> Completion,
                                     req: ChatRequest, answer: string)
    requires HasKey(apiKey) && NoKeyword(answer) && entry.numpages >= 1
    requires complete(PromptFor(Citing, req.question, entry.text, req.filename, entry.numpages))
      == Reply(Some(answer + FallbackDirective(entry.numpages)))
    ensures var res := ChatAnswer(req, entry, apiKey, complete);
      && res.response == Trim(answer)
      && |res.citations| == entry.numpages
      && forall k :: 0 <= k < entry.numpages ==> res.citations[k] == PageCitation(k + 1)
  {
    FallbackReplyCitesEveryPage(apiKey, answer, entry.numpages);
  }
}
