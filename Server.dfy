/** The two request handlers of backend/server.js: `/upload`, which turns an uploaded PDF or
    DOCX file into contract text, and `/analyze`, which sends contract text to the language
    model and recovers a JSON value from its reply. Each handler is a method returning the
    HTTP status and JSON body it sends, together with the foreign calls it made, in order.
    Reading the uploaded file, the two decoders (`pdf-parse`, `mammoth`), the model call and
    `JSON.parse` are parameters; a call that throws yields `None` or `Failure`. */
module Server {
  import opened Wrappers
  import opened JsonValues
  import Prompt
  import Recovery

  type Bytes = seq<bv8>

  /** What a handler sends: `res.status(status).json(body)`; `res.json(body)` is status 200. */
  datatype Response = Response(status: int, body: Json)

  /** The file multer stored for the `file` field: its declared MIME type and where it lies. */
  datatype UploadedFile = UploadedFile(mimetype: string, path: string)

  /** The document formats the upload handler decodes. */
  datatype Format = Pdf | Docx

  /** A call into code outside the model, as the handlers make it. */
  datatype Effect =
    | ReadFile(path: string)
    | Decode(format: Format, data: Bytes)
    | CallModel(systemPrompt: string, userPrompt: string)

  const PdfMime: string := "application/pdf"
  const DocxMime: string := "application/vnd.openxmlformats-officedocument.wordprocessingml.document"

  const NoFileMessage: string := "No file uploaded."
  const UnsupportedMessage: string := "Unsupported file type."
  const ProcessingFailedMessage: string := "File processing failed."
  const TooShortMessage: string := "Contract text is too short."
  const AnalysisFailedMessage: string := "Analysis failed."

  /** Minimum length of contract text the analyze handler accepts. */
  const MinTextLength: nat := 50

  /** The body `{error: message}`. */
  function ErrorBody(message: string): (body: Json)
  {
    JObject([("error", JString(message))])
  }

  /** The body `{error: message, details: details}`. */
  function ErrorDetailsBody(message: string, details: string): (body: Json)
  {
    JObject([("error", JString(message)), ("details", JString(details))])
  }

  /** The body `{contractText: text}`. */
  function ContractTextBody(text: string): (body: Json)
  {
    JObject([("contractText", JString(text))])
  }

  /** What the upload handler sends, and which calls it made, once it has chosen a decoder:
      read the file, decode its bytes, and answer 200 with the text, or 500 as soon as either
      step throws. */
  ghost predicate ExtractionReply(r: Response, effects: seq<Effect>, path: string,
                                  readFile: string -> Option<Bytes>, format: Format,
                                  decode: Bytes -> Option<string>)
  {
    match readFile(path)
    case None =>
      r == Response(500, ErrorBody(ProcessingFailedMessage)) && effects == [ReadFile(path)]
    case Some(data) =>
      && effects == [ReadFile(path), Decode(format, data)]
      && match decode(data)
         case None => r == Response(500, ErrorBody(ProcessingFailedMessage))
         case Some(text) => r == Response(200, ContractTextBody(text))
  }

  /** The `/upload` handler. A missing file and an unsupported MIME type are rejected with 400
      before anything is read; the format is chosen by exact match of the MIME type; the
      extracted text is returned unchanged, even when empty; any failure while reading or
      decoding gives 500. */
  method Upload(file: Option<UploadedFile>, readFile: string -> Option<Bytes>,
                pdfParse: Bytes -> Option<string>, extractRawText: Bytes -> Option<string>)
    returns (r: Response, effects: seq<Effect>)
    ensures file.None? ==> r == Response(400, ErrorBody(NoFileMessage)) && effects == []
    ensures file.Some? && file.value.mimetype == PdfMime ==>
      ExtractionReply(r, effects, file.value.path, readFile, Pdf, pdfParse)
    ensures file.Some? && file.value.mimetype == DocxMime ==>
      ExtractionReply(r, effects, file.value.path, readFile, Docx, extractRawText)
    ensures file.Some? && file.value.mimetype != PdfMime && file.value.mimetype != DocxMime ==>
      r == Response(400, ErrorBody(UnsupportedMessage)) && effects == []
  {
    effects := [];
    if file.None? {
      return Response(400, ErrorBody(NoFileMessage)), effects;
    }
    var extractedText := "";
    if file.value.mimetype == PdfMime {
      var dataBuffer := readFile(file.value.path);
      effects := effects + [ReadFile(file.value.path)];
      if dataBuffer.None? {
        return Response(500, ErrorBody(ProcessingFailedMessage)), effects;
      }
      var pdfData := pdfParse(dataBuffer.value);
      effects := effects + [Decode(Pdf, dataBuffer.value)];
      if pdfData.None? {
        return Response(500, ErrorBody(ProcessingFailedMessage)), effects;
      }
      extractedText := pdfData.value;
    } else if file.value.mimetype == DocxMime {
      var dataBuffer := readFile(file.value.path);
      effects := effects + [ReadFile(file.value.path)];
      if dataBuffer.None? {
        return Response(500, ErrorBody(ProcessingFailedMessage)), effects;
      }
      var result := extractRawText(dataBuffer.value);
      effects := effects + [Decode(Docx, dataBuffer.value)];
      if result.None? {
        return Response(500, ErrorBody(ProcessingFailedMessage)), effects;
      }
      extractedText := result.value;
    } else {
      return Response(400, ErrorBody(UnsupportedMessage)), effects;
    }
    r := Response(200, ContractTextBody(extractedText));
  }

  /** The `contractText` member of the JSON request body, as the length check sees it. */
  datatype TextField =
    | Missing
      /** A JSON string. */
    | Text(text: string)
      /** `null`, a number, a boolean, an array or an object: the check observes only whether
          JavaScript deems it truthy and whether `value.length < 50` evaluates to true. */
    | NonText(truthy: bool, lengthBelowMin: bool)

  /** The check `!contractText || contractText.length < 50` as written: true when the
      request is let through. */
  function PassesCheckAsWritten(field: TextField): (passes: bool)
    ensures field.Missing? ==> !passes
    ensures field.Text? ==> (passes <==> |field.text| >= MinTextLength)
    ensures field.NonText? ==> (passes <==> field.truthy && !field.lengthBelowMin)
  {
    match field
    case Missing => false
    case Text(t) => !(t == "" || |t| < MinTextLength)
    case NonText(truthy, lengthBelowMin) => !(!truthy || lengthBelowMin)
  }

  /** The number 42 is truthy and `(42).length` is `undefined`, so `(42).length < 50` is false:
      a number gets through the check as written, as does `true` or `{}`. */
  lemma NumberPassesCheckAsWritten()
    ensures PassesCheckAsWritten(NonText(truthy := true, lengthBelowMin := false))
    ensures AcceptedText(NonText(truthy := true, lengthBelowMin := false)).None?
  {
  }

  /** The check as intended: the contract text, when it is a string of at least 50 characters. */
  function AcceptedText(field: TextField): (r: Option<string>)
    ensures r.Some? <==> field.Text? && |field.text| >= MinTextLength
    ensures r.Some? ==> r.value == field.text
  {
    match field
    case Text(t) => if |t| < MinTextLength then None else Some(t)
    case _ => None
  }

  /** On a missing member and on every string, the intended check and the check as written
      agree; they differ only on values that are not strings. */
  lemma ChecksAgreeOnStrings(field: TextField)
    requires !field.NonText?
    ensures PassesCheckAsWritten(field) <==> AcceptedText(field).Some?
  {
  }

  /** The `/analyze` handler. Text that is missing or shorter than 50 characters is rejected
      with 400 and the model is never called. Otherwise the model is called once, with the
      fixed system prompt and the user prompt built from the text; if that call fails the
      answer is 500 with the failure's message, and otherwise 200 with the value recovered
      from the reply, which cannot fail. */
  method Analyze(contractText: TextField, model: (string, string) -> Result<string>,
                 parse: string -> Option<Json>)
    returns (r: Response, effects: seq<Effect>)
    ensures AcceptedText(contractText).None? ==>
      r == Response(400, ErrorBody(TooShortMessage)) && effects == []
    ensures AcceptedText(contractText).Some? ==>
      var userPrompt := Prompt.UserPrompt(contractText.text);
      && effects == [CallModel(Prompt.SystemPrompt, userPrompt)]
      && match model(Prompt.SystemPrompt, userPrompt)
         case Failure(message) => r == Response(500, ErrorDetailsBody(AnalysisFailedMessage, message))
         case Success(output) => r == Response(200, Recovery.Recovered(output, parse))
  {
    var text := AcceptedText(contractText);
    if text.None? {
      return Response(400, ErrorBody(TooShortMessage)), [];
    }
    var systemPrompt := Prompt.SystemPrompt;
    var userPrompt := Prompt.UserPrompt(text.value);
    var response := model(systemPrompt, userPrompt);
    effects := [CallModel(systemPrompt, userPrompt)];
    if response.Failure? {
      return Response(500, ErrorDetailsBody(AnalysisFailedMessage, response.message)), effects;
    }
    var parsed := Recovery.RecoverParsed(response.value, parse);
    r := Response(200, parsed);
  }
}
