/** The `/analyze` upload route: the request handler as a function from the
    uploaded file and the outcomes of the steps it cannot see (the model's
    reply, the JSON parser, the date formatter, the clock, `NODE_ENV`) to
    the HTTP status, the JSON body and the clean-up decision. The static
    `/supported-types` answer sits here too. */
module UploadRoute {
  import opened Wrappers
  import opened JsString
  import opened DocumentProcessor
  import opened GeminiService

  /** What the upload middleware leaves in `req.file`: the staged path and
      what the file system reports about it. */
  datatype UploadedFile = UploadedFile(path: string, stat: FileStat)

  /** Everything the handler depends on besides the file. `reply` is the
      model's text or the message of the error thrown while reading the file
      or calling the model; `parse` stands for `JSON.parse`; `formatDate`
      for the locale date formatter; `now` for the rendered clock reading;
      `nodeEnv` for `process.env.NODE_ENV`. */
  datatype Environment = Environment(
    reply: Result<string, string>,
    parse: string -> Option<Draft>,
    formatDate: string -> string,
    now: string,
    nodeEnv: Option<string>)

  /** The `data` object of a successful response. */
  datatype AnalysisData = AnalysisData(
    documentType: string,
    extractedData: Fields,
    confidence: string,
    validation: ValidationResult,
    summary: ProcessingSummary)

  /** The JSON body: `success: false` with a message and, in development
      only, the error text; or `success: true` with the analysis. */
  datatype ResponseBody =
    | Failed(message: string, error: Option<string>)
    | Succeeded(message: string, data: AnalysisData)

  datatype Response = Response(status: nat, body: ResponseBody)

  /** The response, whether the model was called, and whether the staged
      file's deletion was scheduled by the `finally` block. */
  datatype HandlerResult = HandlerResult(response: Response, extractionRequested: bool, cleanupScheduled: bool)

  const NoFileMessage: string := "No file uploaded. Please select a document to analyze."
  const SuccessMessage: string := "Document analyzed successfully"
  const ApiConfigMessage: string := "API configuration error. Please check server configuration."
  const RateLimitMessage: string := "Rate limit exceeded. Please try again later."
  const GenericFailureMessage: string := "Failed to analyze document. Please try again."

  /** The statuses the handler can answer with. */
  const HandlerStatuses: set<nat> := {200, 400, 429, 500}

  /** The catch block: an "API key" problem is a configuration error, then a
      "rate limit" problem is a 429, and anything else is a generic 500 that
      shows the error text only in development. */
  function ErrorResponse(message: string, nodeEnv: Option<string>): (r: Response)
    ensures r.body.Failed? && r.status in {429, 500}
    ensures r.status == 429 <==> !Contains(message, "API key") && Contains(message, "rate limit")
    ensures r.body.message in {ApiConfigMessage, RateLimitMessage, GenericFailureMessage}
    ensures r.body.message == ApiConfigMessage <==> Contains(message, "API key")
    ensures r.body.message == RateLimitMessage <==> r.status == 429
    ensures r.body.message == GenericFailureMessage <==>
      !Contains(message, "API key") && !Contains(message, "rate limit")
    ensures r.body.error.Some? <==>
      nodeEnv == Some("development") && !Contains(message, "API key") && !Contains(message, "rate limit")
    ensures r.body.error.Some? ==> r.body.error.value == message
  {
    if Contains(message, "API key") then
      Response(500, Failed(ApiConfigMessage, None))
    else if Contains(message, "rate limit") then
      Response(429, Failed(RateLimitMessage, None))
    else
      Response(500, Failed(GenericFailureMessage, if nodeEnv == Some("development") then Some(message) else None))
  }

  /** The success path after extraction: validation of the data as the
      model returned it, formatting, and a summary of the formatted data. */
  function BuildAnalysisData(draft: Draft, formatDate: string -> string, now: string): (r: AnalysisData)
    ensures r.documentType == draft.documentType && r.confidence == draft.confidence
    ensures r.validation == ValidateExtractedData(draft.documentType, draft.extractedData)
    ensures r.extractedData.Keys == draft.extractedData.Keys
    ensures forall k :: k in draft.extractedData ==>
      r.extractedData[k] == FormattedValue(formatDate, k, draft.extractedData[k])
    ensures r.summary.documentType == draft.documentType && r.summary.processingTimestamp == now
    ensures r.summary.totalFieldsExtracted == |draft.extractedData.Keys|
    ensures r.summary.validationStatus == "passed" <==> r.validation.isValid
    ensures r.summary.validationStatus == "failed" <==> !r.validation.isValid
    ensures r.summary.missingRequiredFields == |r.validation.missingFields|
    ensures r.summary.warnings == |r.validation.warnings|
  {
    var validation := ValidateExtractedData(draft.documentType, draft.extractedData);
    var formatted := FormatExtractedData(formatDate, draft.documentType, draft.extractedData);
    var summary := GenerateProcessingSummary(draft.documentType, formatted, validation, now);
    AnalysisData(draft.documentType, formatted, draft.confidence, validation, summary)
  }

  /** The `/analyze` handler. A missing file is rejected before anything
      else; an unusable file is rejected by the intake check before the
      model is called; a failed extraction is classified by the catch block;
      otherwise the analysis is returned. The clean-up is scheduled whenever
      a staged path was recorded, whatever happened after. */
  function Analyze(file: Option<UploadedFile>, env: Environment): (r: HandlerResult)
    ensures r.response.status in HandlerStatuses
    ensures file.None? ==>
      r == HandlerResult(Response(400, Failed(NoFileMessage, None)), false, false)
    ensures r.cleanupScheduled <==> file.Some? && file.value.path != ""
    ensures r.extractionRequested <==> file.Some? && ValidateFile(file.value.stat).Pass?
    ensures r.response.body.Succeeded? <==> r.extractionRequested && env.reply.Success?
    ensures r.response.status == 200 <==> r.response.body.Succeeded?
    ensures r.response.status == 400 <==> !r.extractionRequested
    ensures r.response.body.Succeeded? ==>
      r.response.body.message == SuccessMessage &&
      r.response.body.data == BuildAnalysisData(InterpretResponse(env.reply.value, env.parse), env.formatDate, env.now)
  {
    match file
    case None => HandlerResult(Response(400, Failed(NoFileMessage, None)), false, false)
    case Some(f) =>
      var cleanup := f.path != "";
      match ValidateFile(f.stat)
      case Fail(reason) => HandlerResult(Response(400, Failed(reason, None)), false, cleanup)
      case Pass =>
        match AnalyzeDocument(env.reply, env.parse)
        case Failure(message) => HandlerResult(ErrorResponse(message, env.nodeEnv), true, cleanup)
        case Success(draft) =>
          HandlerResult(Response(200, Succeeded(SuccessMessage, BuildAnalysisData(draft, env.formatDate, env.now))), true, cleanup)
  }

  /** A file the intake check rejects is answered with that check's message,
      whatever the model, parser or clock would have done. */
  lemma IntakeFailureShortCircuits(f: UploadedFile, env1: Environment, env2: Environment)
    requires ValidateFile(f.stat).Fail?
    ensures Analyze(Some(f), env1) == Analyze(Some(f), env2)
    ensures Analyze(Some(f), env1).response == Response(400, Failed(ValidateFile(f.stat).error, None))
    ensures StartsWith(Analyze(Some(f), env1).response.body.message, IntakeErrorPrefix)
  {
  }

  /** Empty, oversized, missing and non-regular files never reach the model. */
  lemma UnusableFilesNeverReachTheModel(f: UploadedFile, env: Environment)
    requires !f.stat.present || !f.stat.isFile || f.stat.size == 0 || f.stat.size > MaxFileSize
    ensures !Analyze(Some(f), env).extractionRequested
    ensures Analyze(Some(f), env).response.status == 400
  {
  }

  /** Validation runs on the data before formatting. That is harmless for
      the verdict: formatting the data first would give the same validity
      and the same missing list, whatever the date formatter does. */
  lemma ValidatingFormattedDataAgreesOnRequiredFields(draft: Draft, formatDate: string -> string)
    ensures var formatted := FormatExtractedData(formatDate, draft.documentType, draft.extractedData);
      && ValidateExtractedData(draft.documentType, formatted).isValid
         == ValidateExtractedData(draft.documentType, draft.extractedData).isValid
      && ValidateExtractedData(draft.documentType, formatted).missingFields
         == ValidateExtractedData(draft.documentType, draft.extractedData).missingFields
  {
    var t := draft.documentType;
    var formatted := FormatExtractedData(formatDate, t, draft.extractedData);
    forall f | f in RequiredFields(t) ensures IsMissing(draft.extractedData, f) <==> IsMissing(formatted, f) {
      FormatKeepsRequiredMissingness(formatDate, t, draft.extractedData, f);
    }
    ValidityIgnoresNonRequiredFields(t, draft.extractedData, formatted);
  }

  /** With a date formatter that keeps blank dates blank and other dates
      non-blank, even the warnings agree, so the response's validation is
      also the validation of the formatted data it carries. */
  lemma ValidatingFormattedDataAgrees(draft: Draft, formatDate: string -> string, now: string)
    requires forall s :: s != "" ==> (IsBlankText(formatDate(s)) <==> IsBlankText(s))
    ensures var data := BuildAnalysisData(draft, formatDate, now);
      && data.validation == ValidateExtractedData(draft.documentType, data.extractedData)
      && data.summary == GenerateProcessingSummary(draft.documentType, data.extractedData, data.validation, now)
      && data.summary.totalFieldsExtracted == |draft.extractedData.Keys|
  {
    var t := draft.documentType;
    var formatted := FormatExtractedData(formatDate, t, draft.extractedData);
    forall f ensures IsMissing(draft.extractedData, f) <==> IsMissing(formatted, f) {
      FormatKeepsMissingness(formatDate, t, draft.extractedData, f);
    }
    ValidationDeterminedByMissingness(t, draft.extractedData, formatted);
  }

  /** A failed model call reaches the catch block wrapped as "Document
      analysis failed: ..."; the wrapping changes neither the status nor the
      message, and the development-only detail is the wrapped text. */
  lemma ModelErrorsAreClassifiedByTheirOwnText(f: UploadedFile, env: Environment)
    requires ValidateFile(f.stat).Pass? && env.reply.Failure?
    ensures var r := Analyze(Some(f), env).response;
      var direct := ErrorResponse(env.reply.error, env.nodeEnv);
      && r.status == direct.status
      && r.body.message == direct.body.message
      && r.body.error.Some? == direct.body.error.Some?
      && (r.body.error.Some? ==> r.body.error.value == AnalysisFailedPrefix + env.reply.error)
  {
    RewrapKeepsClassification(env.reply.error);
  }

  /** Outside development no failure response carries the error text. */
  lemma NoErrorDetailOutsideDevelopment(file: Option<UploadedFile>, env: Environment)
    requires env.nodeEnv != Some("development")
    ensures Analyze(file, env).response.body.Failed? ==> Analyze(file, env).response.body.error.None?
  {
  }

  /** The degraded analysis of an unparsable reply: the raw reply and the
      parse-failure marker, untouched by formatting, valid, two fields. */
  lemma FallbackAnalysis(text: string, formatDate: string -> string, now: string)
    ensures var data := BuildAnalysisData(FallbackDraft(text), formatDate, now);
      && data.documentType == "unknown" && data.confidence == "low"
      && data.extractedData == map["rawResponse" := text, "error" := ParseFailureMarker]
      && data.validation == ValidationResult(true, [], [])
      && data.summary.totalFieldsExtracted == 2
      && data.summary.validationStatus == "passed"
  {
    FallbackKeys(text);
    FallbackUnformatted(text, formatDate, now);
  }

  lemma FallbackKeys(text: string)
    ensures FallbackDraft(text).extractedData.Keys == {"rawResponse", "error"}
    ensures |FallbackDraft(text).extractedData.Keys| == 2
    ensures "rawResponse" !in FormattedKeys && "error" !in FormattedKeys
  {
  }

  /** Neither key of the fallback draft is one the formatter rewrites. */
  lemma FallbackUnformatted(text: string, formatDate: string -> string, now: string)
    requires "rawResponse" !in FormattedKeys && "error" !in FormattedKeys
    requires FallbackDraft(text).extractedData.Keys == {"rawResponse", "error"}
    ensures BuildAnalysisData(FallbackDraft(text), formatDate, now).extractedData == FallbackDraft(text).extractedData
  {
    UnformattedDataKept(FallbackDraft(text), formatDate, now);
  }

  /** Data with none of the rewritten keys comes back as it went in. */
  lemma UnformattedDataKept(draft: Draft, formatDate: string -> string, now: string)
    requires forall k :: k in draft.extractedData ==> k !in FormattedKeys
    ensures BuildAnalysisData(draft, formatDate, now).extractedData == draft.extractedData
  {
    var r := BuildAnalysisData(draft, formatDate, now).extractedData;
    forall k | k in draft.extractedData ensures r[k] == draft.extractedData[k] {
      assert k !in DateFields;
    }
  }

  /** An unparsable reply is not an error: the request succeeds with the
      degraded "unknown" analysis, which carries the raw reply, passes
      validation and counts two fields. */
  lemma UnparsableReplyIsAbsorbed(f: UploadedFile, env: Environment)
    requires ValidateFile(f.stat).Pass? && env.reply.Success?
    requires env.parse(CleanResponseText(env.reply.value)).None?
    ensures var r := Analyze(Some(f), env).response;
      && r.status == 200 && r.body.Succeeded?
      && r.body.data.documentType == "unknown" && r.body.data.confidence == "low"
      && r.body.data.extractedData == map["rawResponse" := env.reply.value, "error" := ParseFailureMarker]
      && r.body.data.validation == ValidationResult(true, [], [])
      && r.body.data.summary.totalFieldsExtracted == 2
      && r.body.data.summary.validationStatus == "passed"
  {
    var text := env.reply.value;
    assert InterpretResponse(text, env.parse) == FallbackDraft(text);
    FallbackAnalysis(text, env.formatDate, env.now);
  }

  const ExamplePassportData: Fields :=
    map["passportNumber" := "ab123456", "fullName" := "john smith", "nationality" := "USA"]

  /** The analysis expected for the example passport: valid, number
      upper-cased, name title-cased, nationality kept. */
  predicate IsExamplePassportAnalysis(data: AnalysisData) {
    && data.validation.isValid
    && "passportNumber" in data.extractedData && data.extractedData["passportNumber"] == "AB123456"
    && "fullName" in data.extractedData && data.extractedData["fullName"] == "John Smith"
    && "nationality" in data.extractedData && data.extractedData["nationality"] == "USA"
  }

  /** A well-formed passport extraction: the number is upper-cased, the name
      is title-cased, and the passport validates. */
  lemma PassportExampleAnalysis(formatDate: string -> string, now: string)
    ensures IsExamplePassportAnalysis(BuildAnalysisData(Draft("passport", ExamplePassportData, "high"), formatDate, now))
  {
    PassportExampleValidates();
    PassportExampleFormatting(formatDate);
  }

  lemma PassportExampleValidates()
    ensures ValidateExtractedData("passport", ExamplePassportData).isValid
  {
    var raw := ExamplePassportData;
    PassportExampleNotBlank();
    assert "passportNumber" in raw && raw["passportNumber"] == "ab123456";
    assert "fullName" in raw && raw["fullName"] == "john smith";
    assert "nationality" in raw && raw["nationality"] == "USA";
    var r := ValidateExtractedData("passport", raw);
    assert forall f :: f in PassportRequired ==> !IsMissing(raw, f);
    assert r.missingFields == [];
  }

  lemma PassportExampleFormatting(formatDate: string -> string)
    ensures var formatted := FormatExtractedData(formatDate, "passport", ExamplePassportData);
      && formatted["passportNumber"] == "AB123456"
      && formatted["fullName"] == "John Smith"
      && formatted["nationality"] == "USA"
  {
    ExampleFieldFormatted(formatDate, "passportNumber", "ab123456");
    ExampleFieldFormatted(formatDate, "fullName", "john smith");
    ExampleFieldFormatted(formatDate, "nationality", "USA");
    PassportNumberUpperCased();
    CapitalizeWordsExamples();
  }

  lemma ExampleFieldFormatted(formatDate: string -> string, key: string, value: string)
    requires key in ExamplePassportData && ExamplePassportData[key] == value
    requires key !in DateFields
    ensures FormatExtractedData(formatDate, "passport", ExamplePassportData)[key] == FormattedValue(formatDate, key, value)
  {
  }

  lemma PassportNumberUpperCased()
    ensures ToUpper("ab123456") == "AB123456"
  {
  }

  lemma PassportExampleNotBlank()
    ensures !IsBlankText("ab123456") && !IsBlankText("john smith") && !IsBlankText("USA")
  {
    assert "ab123456"[0] == 'a' && "john smith"[0] == 'j' && "USA"[0] == 'U';
  }

  /** The same passport reply through the whole route. */
  lemma PassportExample(f: UploadedFile, env: Environment)
    requires ValidateFile(f.stat).Pass? && env.reply.Success?
    requires env.parse(CleanResponseText(env.reply.value)) == Some(Draft("passport", ExamplePassportData, "high"))
    ensures var r := Analyze(Some(f), env).response;
      r.status == 200 && r.body.Succeeded? && IsExamplePassportAnalysis(r.body.data)
  {
    ParsedReplyIsAnalysed(f, env);
    PassportExampleAnalysis(env.formatDate, env.now);
  }

  /** A reply that parses is analysed as parsed. */
  lemma ParsedReplyIsAnalysed(f: UploadedFile, env: Environment)
    requires ValidateFile(f.stat).Pass? && env.reply.Success?
    requires env.parse(CleanResponseText(env.reply.value)).Some?
    ensures var r := Analyze(Some(f), env).response;
      && r.status == 200 && r.body.Succeeded?
      && r.body.data == BuildAnalysisData(env.parse(CleanResponseText(env.reply.value)).value, env.formatDate, env.now)
  {
    assert InterpretResponse(env.reply.value, env.parse) == env.parse(CleanResponseText(env.reply.value)).value;
  }

  /** One entry of the `/supported-types` answer. */
  datatype SupportedType = SupportedType(documentType: string, description: string, fields: seq<string>)

  datatype SupportedTypesInfo = SupportedTypesInfo(types: seq<SupportedType>, formats: seq<string>, maxFileSize: string)

  const PassportFields: seq<string> := ["passportNumber", "fullName", "dateOfBirth", "placeOfBirth",
    "nationality", "gender", "issueDate", "expiryDate", "issuingAuthority", "countryCode"]

  const LicenseFields: seq<string> := ["licenseNumber", "fullName", "dateOfBirth", "address",
    "issueDate", "expiryDate", "licenseClasses", "issuingAuthority", "stateRegion"]

  /** `/supported-types`: the two document types with the fields the model
      is asked for, the accepted image formats and the size ceiling. Every
      field the validator requires or recommends is advertised. */
  function SupportedTypes(): (r: SupportedTypesInfo)
    ensures |r.types| == 2
    ensures forall i :: 0 <= i < |r.types| ==>
      && RequiredFields(r.types[i].documentType) != []
      && (forall f :: f in RequiredFields(r.types[i].documentType) ==> f in r.types[i].fields)
      && (forall f :: f in RecommendedFields(r.types[i].documentType) ==> f in r.types[i].fields)
      && Distinct(r.types[i].fields)
    ensures r.types[0].documentType == "passport" && r.types[1].documentType == "driving_license"
    ensures r.formats == ["JPEG", "PNG", "GIF", "BMP", "WEBP"] && r.maxFileSize == "10MB"
  {
    FieldsAdvertised();
    FieldListsDistinct();
    SupportedTypesInfo(
      [ SupportedType("passport", "International passport documents", PassportFields),
        SupportedType("driving_license", "Driving license documents", LicenseFields) ],
      ["JPEG", "PNG", "GIF", "BMP", "WEBP"],
      "10MB")
  }

  lemma FieldsAdvertised()
    ensures forall f :: f in PassportRequired ==> f in PassportFields
    ensures forall f :: f in PassportRecommended ==> f in PassportFields
    ensures forall f :: f in LicenseRequired ==> f in LicenseFields
    ensures forall f :: f in LicenseRecommended ==> f in LicenseFields
  {
    assert PassportFields[0] == "passportNumber" && PassportFields[1] == "fullName";
    assert PassportFields[2] == "dateOfBirth" && PassportFields[4] == "nationality";
    assert PassportFields[6] == "issueDate" && PassportFields[7] == "expiryDate";
    assert LicenseFields[0] == "licenseNumber" && LicenseFields[1] == "fullName";
    assert LicenseFields[2] == "dateOfBirth" && LicenseFields[3] == "address";
    assert LicenseFields[4] == "issueDate" && LicenseFields[5] == "expiryDate";
  }

  lemma FieldListsDistinct()
    ensures Distinct(PassportFields) && Distinct(LicenseFields)
  {
  }
}
