/**
 * The GridFS controller: PDF files live in the `pdfs` bucket and are found by
 * ObjectId or by file name; `pdfStore` caches their extraction under the
 * request's `fileId`, or under its `filename` when there is no id.
 */
module GridFsChat {
  import opened Wrappers
  import opened JsText
  import opened Pages
  import opened Citations
  import opened Prompt
  import opened Answer
  import opened Endpoints

  /** A file of the `pdfs` bucket: its ObjectId in lower-case hex, its name and its bytes. */
  datatype StoredFile = StoredFile(id: string, filename: string, data: Bytes)

  /** The bucket's files in their natural order, the order `findOne` scans them in. */
  type Bucket = seq<StoredFile>

  /** A request body; a field that is missing is modelled as the empty string, which is just as falsy. */
  datatype ChatRequest = ChatRequest(question: string, fileId: string, filename: string)

  predicate IsHexDigit(c: char) {
    '0' <= c <= '9' || 'a' <= c <= 'f' || 'A' <= c <= 'F'
  }

  function LowerAll(s: string): (r: string)
    ensures |r| == |s| && forall k :: 0 <= k < |s| ==> r[k] == LowerAscii(s[k])
  {
    if s == [] then [] else [LowerAscii(s[0])] + LowerAll(s[1..])
  }

  /**
   * `new ObjectId(s)` for a string: 24 hexadecimal digits in either case name
   * the id with those digits in lower case; any other string makes it throw.
   */
  function ObjectIdOf(s: string): (r: Option<string>)
    ensures r.Some? <==> |s| == 24 && forall k :: 0 <= k < |s| ==> IsHexDigit(s[k])
    ensures r.Some? ==> |r.value| == 24 && forall k :: 0 <= k < 24 ==> r.value[k] == LowerAscii(s[k])
  {
    if |s| == 24 && forall k :: 0 <= k < |s| ==> IsHexDigit(s[k]) then Some(LowerAll(s)) else None
  }

  /** The two fields of a `pdfs.files` document the controller queries by. */
  datatype Field = Id | Filename

  function FieldOf(file: StoredFile, field: Field): string {
    match field
    case Id => file.id
    case Filename => file.filename
  }

  /** `findOne({ <field>: value })`: the index of the first file whose field has that value. */
  function FindFirst(files: Bucket, field: Field, value: string, from: nat): (r: Option<nat>)
    requires from <= |files|
    ensures r.Some? ==> from <= r.value < |files| && FieldOf(files[r.value], field) == value
    ensures r.Some? ==> forall j :: from <= j < r.value ==> FieldOf(files[j], field) != value
    ensures r.None? ==> forall j :: from <= j < |files| ==> FieldOf(files[j], field) != value
    decreases |files| - from
  {
    if from == |files| then None
    else if FieldOf(files[from], field) == value then Some(from)
    else FindFirst(files, field, value, from + 1)
  }

  /**
   * `getPdfFromGridFS(fileId)`: the bytes of the file with that id. A string
   * that is no ObjectId, and an id no file has, both end in a rejection.
   */
  function DownloadById(files: Bucket, fileId: string): (r: Outcome<Bytes>)
    ensures r.Ok? <==> ObjectIdOf(fileId).Some? && exists j :: 0 <= j < |files| && files[j].id == ObjectIdOf(fileId).value
  {
    match ObjectIdOf(fileId)
    case None => Failed
    case Some(id) =>
      match FindFirst(files, Id, id, 0)
      case None => Failed
      case Some(j) => Ok(files[j].data)
  }

  /** `getPdfFromGridFSByFilename(filename)`: the bytes of the first file with that name; "File not found" otherwise. */
  function DownloadByFilename(files: Bucket, filename: string): (r: Outcome<Bytes>)
    ensures r.Ok? <==> exists j :: 0 <= j < |files| && files[j].filename == filename
  {
    match FindFirst(files, Filename, filename, 0)
    case None => Failed
    case Some(j) => Ok(files[j].data)
  }

  /** `fileId || filename`. */
  function CacheKey(req: ChatRequest): string {
    if req.fileId != "" then req.fileId else req.filename
  }

  /** `filename || \`file-${fileId}\``: the name the prompt and the reply use. */
  function DisplayName(req: ChatRequest): string {
    if req.filename != "" then req.filename else "file-" + req.fileId
  }

  /** Resolving and extracting a file the store does not hold yet: by id when there is one, else by name. */
  function Load(files: Bucket, pdfParse: Bytes -> Outcome<PdfData>, req: ChatRequest): Outcome<Extracted> {
    var buffer := if req.fileId != "" then DownloadById(files, req.fileId) else DownloadByFilename(files, req.filename);
    match buffer
    case Failed => Failed
    case Ok(b) =>
      match pdfParse(b)
      case Failed => Failed
      case Ok(data) => Ok(Extraction(data))
  }

  /** The answer to a chat request about the cached record `entry`. */
  function ChatAnswer(req: ChatRequest, entry: Extracted, apiKey: Option<string>, complete: string -> Completion): ChatResponse {
    var name := DisplayName(req);
    var ai := AIAnswer(apiKey, complete(PromptFor(Plain, req.question, entry.text, name, entry.numpages)), entry.numpages);
    Answered(req.question, ai.response, ai.citations, entry.numpages, name)
  }

  /** Reference definition of `handleChat`: its answer and the store afterwards. */
  function Chat(store: Store, files: Bucket, pdfParse: Bytes -> Outcome<PdfData>, apiKey: Option<string>,
                complete: string -> Completion, req: ChatRequest): (ChatResponse, Store)
  {
    if req.question == "" then (ChatError(400, "Question is required"), store)
    else if req.fileId == "" && req.filename == "" then (ChatError(400, "Either fileId or filename is required"), store)
    else
      var key := CacheKey(req);
      if key in store then (ChatAnswer(req, store[key], apiKey, complete), store)
      else
        match Load(files, pdfParse, req)
        case Failed => (ChatError(500, ChatFailed), store)
        case Ok(entry) => (ChatAnswer(req, entry, apiKey, complete), store[key := entry])
  }

  /** Reference definition of `extractPdfContent`: extraction by id, which always replaces the cached record. */
  function ExtractById(store: Store, files: Bucket, pdfParse: Bytes -> Outcome<PdfData>, fileId: string): (ExtractResponse, Store) {
    if fileId == "" then (ExtractError(400, "File ID is required"), store)
    else
      match ObjectIdOf(fileId)
      case None => (ExtractError(500, ExtractFailed), store)
      case Some(id) =>
        match FindFirst(files, Id, id, 0)
        case None => (ExtractError(404, PdfNotFound), store)
        case Some(j) =>
          match pdfParse(files[j].data)
          case Failed => (ExtractError(500, ExtractFailed), store)
          case Ok(data) => (ExtractedById(fileId, files[j].filename, data.numpages), store[fileId := Extraction(data)])
  }

  /** Reference definition of `extractPdfContentByFilename`: extraction by name, which always replaces the cached record. */
  function ExtractByName(store: Store, files: Bucket, pdfParse: Bytes -> Outcome<PdfData>, filename: string): (ExtractResponse, Store) {
    if filename == "" then (ExtractError(400, "Filename is required"), store)
    else
      match DownloadByFilename(files, filename)
      case Failed => (ExtractError(500, ExtractFailed), store)
      case Ok(b) =>
        match pdfParse(b)
        case Failed => (ExtractError(500, ExtractFailed), store)
        case Ok(data) => (ExtractedByName(filename, data.numpages), store[filename := Extraction(data)])
  }

  /**
   * The controller's module state. The bucket, pdf-parse, the API key and
   * the completion service are passed to each request.
   */
  class ChatController {
    var pdfStore: Store

    predicate Valid()
      reads this
    {
      Segmented(pdfStore)
    }

    constructor()
      ensures pdfStore == map[] && Valid()
    {
      pdfStore := map[];
    }

    /** `handleChat(req, res)`. */
    method HandleChat(files: Bucket, pdfParse: Bytes -> Outcome<PdfData>, apiKey: Option<string>,
                      complete: string -> Completion, req: ChatRequest)
      returns (res: ChatResponse)
      requires Valid()
      modifies this
      ensures Valid()
      ensures (res, pdfStore) == Chat(old(pdfStore), files, pdfParse, apiKey, complete, req)
    {
      if req.question == "" {
        return ChatError(400, "Question is required");
      }
      if req.fileId == "" && req.filename == "" {
        return ChatError(400, "Either fileId or filename is required");
      }
      var cacheKey := if req.fileId != "" then req.fileId else req.filename;
      if cacheKey !in pdfStore {
        var dataBuffer: Outcome<Bytes>;
        if req.fileId != "" {
          dataBuffer := DownloadById(files, req.fileId);
        } else {
          dataBuffer := DownloadByFilename(files, req.filename);
        }
        if dataBuffer.Failed? {
          return ChatError(500, ChatFailed);
        }
        var pdfData := ExtractPdfWithPages(pdfParse(dataBuffer.value));
        if pdfData.Failed? {
          return ChatError(500, ChatFailed);
        }
        StoreExtraction(pdfStore, cacheKey, pdfParse(dataBuffer.value).value);
        pdfStore := pdfStore[cacheKey := pdfData.value];
      }
      var pdfContent := pdfStore[cacheKey];
      var name := if req.filename != "" then req.filename else "file-" + req.fileId;
      var aiResult := GetAIResponse(Plain, apiKey, complete, req.question, pdfContent.text, name, pdfContent.numpages);
      res := Answered(req.question, aiResult.response, aiResult.citations, pdfContent.numpages, name);
    }

    /** `extractPdfContent(req, res)` with `req.params.fileId`. */
    method ExtractPdfContent(files: Bucket, pdfParse: Bytes -> Outcome<PdfData>, fileId: string)
      returns (res: ExtractResponse)
      requires Valid()
      modifies this
      ensures Valid()
      ensures (res, pdfStore) == ExtractById(old(pdfStore), files, pdfParse, fileId)
    {
      if fileId == "" {
        return ExtractError(400, "File ID is required");
      }
      var id := ObjectIdOf(fileId);
      if id.None? {
        return ExtractError(500, ExtractFailed);
      }
      var file := FindFirst(files, Id, id.value, 0);
      if file.None? {
        return ExtractError(404, PdfNotFound);
      }
      // The file was just found, so the download that follows succeeds.
      var dataBuffer := DownloadById(files, fileId);
      assert dataBuffer == Ok(files[file.value].data);
      var pdfData := ExtractPdfWithPages(pdfParse(dataBuffer.value));
      if pdfData.Failed? {
        return ExtractError(500, ExtractFailed);
      }
      StoreExtraction(pdfStore, fileId, pdfParse(dataBuffer.value).value);
      pdfStore := pdfStore[fileId := pdfData.value];
      res := ExtractedById(fileId, files[file.value].filename, pdfData.value.numpages);
    }

    /** `extractPdfContentByFilename(req, res)` with `req.params.filename`. */
    method ExtractPdfContentByFilename(files: Bucket, pdfParse: Bytes -> Outcome<PdfData>, filename: string)
      returns (res: ExtractResponse)
      requires Valid()
      modifies this
      ensures Valid()
      ensures (res, pdfStore) == ExtractByName(old(pdfStore), files, pdfParse, filename)
    {
      if filename == "" {
        return ExtractError(400, "Filename is required");
      }
      var dataBuffer := DownloadByFilename(files, filename);
      if dataBuffer.Failed? {
        return ExtractError(500, ExtractFailed);
      }
      var pdfData := ExtractPdfWithPages(pdfParse(dataBuffer.value));
      if pdfData.Failed? {
        return ExtractError(500, ExtractFailed);
      }
      StoreExtraction(pdfStore, filename, pdfParse(dataBuffer.value).value);
      pdfStore := pdfStore[filename := pdfData.value];
      res := ExtractedByName(filename, pdfData.value.numpages);
    }
  }

  // ---------------------------------------------------------------------------
  // Properties of the handlers

  /** A request without a question, or naming no file, is refused with 400 before the store or the bucket is looked at. */
  lemma ChatValidatesFirst(store: Store, files: Bucket, pdfParse: Bytes -> Outcome<PdfData>, apiKey: Option<string>,
                           complete: string -> Completion, req: ChatRequest)
    ensures req.question == "" ==>
      Chat(store, files, pdfParse, apiKey, complete, req) == (ChatError(400, "Question is required"), store)
    ensures req.question != "" && req.fileId == "" && req.filename == "" ==>
      Chat(store, files, pdfParse, apiKey, complete, req) == (ChatError(400, "Either fileId or filename is required"), store)
  {
  }

  /** On a cache hit the cached record answers, the store stays as it is, and neither the bucket nor pdf-parse matters. */
  lemma ChatHit(store: Store, files: Bucket, files': Bucket, pdfParse: Bytes -> Outcome<PdfData>, pdfParse': Bytes -> Outcome<PdfData>,
                apiKey: Option<string>, complete: string -> Completion, req: ChatRequest)
    requires req.question != "" && (req.fileId != "" || req.filename != "")
    requires CacheKey(req) in store
    ensures Chat(store, files, pdfParse, apiKey, complete, req) == (ChatAnswer(req, store[CacheKey(req)], apiKey, complete), store)
    ensures Chat(store, files, pdfParse, apiKey, complete, req) == Chat(store, files', pdfParse', apiKey, complete, req)
  {
  }

  /** On a miss the loaded record is cached under the key and nothing else changes; a failed load changes nothing and answers 500. */
  lemma ChatMiss(store: Store, files: Bucket, pdfParse: Bytes -> Outcome<PdfData>, apiKey: Option<string>,
                 complete: string -> Completion, req: ChatRequest)
    requires req.question != "" && (req.fileId != "" || req.filename != "")
    requires CacheKey(req) !in store
    ensures var (res, store') := Chat(store, files, pdfParse, apiKey, complete, req);
      && (Load(files, pdfParse, req).Failed? ==> res == ChatError(500, ChatFailed) && store' == store)
      && (Load(files, pdfParse, req).Ok? ==>
            && store' == store[CacheKey(req) := Load(files, pdfParse, req).value]
            && res == ChatAnswer(req, Load(files, pdfParse, req).value, apiKey, complete))
  {
  }

  /** The cache key is the id when there is one, and only the record under that key can change, and only from absent to present. */
  lemma ChatTouchesOnlyKey(store: Store, files: Bucket, pdfParse: Bytes -> Outcome<PdfData>, apiKey: Option<string>,
                           complete: string -> Completion, req: ChatRequest)
    ensures CacheKey(req) == (if req.fileId != "" then req.fileId else req.filename)
    ensures var store' := Chat(store, files, pdfParse, apiKey, complete, req).1;
      && (forall k :: k != CacheKey(req) ==> (k in store' <==> k in store))
      && (forall k :: k in store ==> k in store' && store'[k] == store[k])
  {
  }

  /** An answer echoes the question, names the file, and reports the page count of the record now cached under the key. */
  lemma ChatAnswerEchoes(store: Store, files: Bucket, pdfParse: Bytes -> Outcome<PdfData>, apiKey: Option<string>,
                         complete: string -> Completion, req: ChatRequest)
    ensures var (res, store') := Chat(store, files, pdfParse, apiKey, complete, req);
      res.Answered? ==>
        && res.question == req.question
        && res.filename == DisplayName(req)
        && CacheKey(req) in store'
        && res.numPages == store'[CacheKey(req)].numpages
  {
  }

  /** A chat answer's citations are the parse of the reply, or empty exactly when the key or the service failed. */
  lemma ChatCitations(entry: Extracted, apiKey: Option<string>, complete: string -> Completion, req: ChatRequest)
    ensures var res := ChatAnswer(req, entry, apiKey, complete);
      var completion := complete(PromptFor(Plain, req.question, entry.text, DisplayName(req), entry.numpages));
      && (res.citations == [] <==> !HasKey(apiKey) || !completion.Reply?)
      && (res.citations == [] ==> res.response == Apology)
  {
    var completion := complete(PromptFor(Plain, req.question, entry.text, DisplayName(req), entry.numpages));
    FailureContained(apiKey, completion, entry.numpages);
  }

  /** A request with an id loads by id: its file name plays no part in the lookup. */
  lemma LoadPrefersId(files: Bucket, pdfParse: Bytes -> Outcome<PdfData>, req: ChatRequest)
    requires req.fileId != ""
    ensures Load(files, pdfParse, req) == Load(files, pdfParse, ChatRequest(req.question, req.fileId, ""))
  {
  }

  /** Both extract endpoints replace the record under their key on success, whatever was cached, and touch nothing else. */
  lemma ExtractOverwrites(store: Store, files: Bucket, pdfParse: Bytes -> Outcome<PdfData>, key: string)
    ensures var (res, store') := ExtractById(store, files, pdfParse, key);
      && (res.ExtractedById? ==> exists data :: pdfParse(DownloadById(files, key).value) == Ok(data) && store' == store[key := Extraction(data)])
      && (!res.ExtractedById? ==> store' == store)
    ensures var (res, store') := ExtractByName(store, files, pdfParse, key);
      && (res.ExtractedByName? ==> exists data :: pdfParse(DownloadByFilename(files, key).value) == Ok(data) && store' == store[key := Extraction(data)])
      && (!res.ExtractedByName? ==> store' == store)
  {
  }

  /** An id that is a valid ObjectId but names no file is answered with 404; one that is no ObjectId at all with 500. */
  lemma ExtractMissingFile(store: Store, files: Bucket, pdfParse: Bytes -> Outcome<PdfData>, fileId: string)
    requires fileId != ""
    ensures ObjectIdOf(fileId).None? ==> ExtractById(store, files, pdfParse, fileId) == (ExtractError(500, ExtractFailed), store)
    ensures ObjectIdOf(fileId).Some? && (forall j :: 0 <= j < |files| ==> files[j].id != ObjectIdOf(fileId).value) ==>
      ExtractById(store, files, pdfParse, fileId) == (ExtractError(404, PdfNotFound), store)
  {
  }

  /** After a successful extraction by name, a chat about that name hits the cache: the store keeps the extracted record. */
  lemma ExtractThenChat(store: Store, files: Bucket, pdfParse: Bytes -> Outcome<PdfData>, apiKey: Option<string>,
                        complete: string -> Completion, filename: string, question: string)
    requires question != ""
    requires ExtractByName(store, files, pdfParse, filename).0.ExtractedByName?
    ensures var store1 := ExtractByName(store, files, pdfParse, filename).1;
      var req := ChatRequest(question, "", filename);
      && filename in store1
      && Chat(store1, files, pdfParse, apiKey, complete, req) == (ChatAnswer(req, store1[filename], apiKey, complete), store1)
  {
  }
}
