# Document analysis pipeline — a verified functional model

This project models the logic of a small identity-document analysis
application: a browser uploads an image of a passport or driving licence, the
server checks the file, asks a generative-vision model (Gemini) to extract the
document's fields as JSON, validates and normalises those fields, summarises
the outcome, and the browser renders the result. The model covers:

- `DocumentProcessor` (`backend/utils/documentProcessor.js`): the per-type
  required/recommended field schema, `validateExtractedData`,
  `formatExtractedData` with `capitalizeWords`, `generateProcessingSummary`
  and the intake check `validateFile`, over an abstract `{present, isFile, size}`
  stat record.
- `GeminiService` (`backend/services/geminiService.js`): `getMimeType` with a
  model of Node's `path.extname`, the code-fence stripping and trimming of the
  model's reply, the parse-or-degrade policy and the re-wrapping of failures.
- `UploadRoute` (`backend/routes/upload.js`): the `/analyze` handler as a pure
  function from (uploaded file, environment) to (response, cleanup scheduled?,
  extraction requested?), and the static `/supported-types` data.
- `ApiClient` (`frontend/src/services/api.js`): `fileUtils.validateFile` and
  the status-to-message mapping of the axios response interceptor.
- `DocumentResultView` (`frontend/src/components/DocumentResult.js`):
  `formatFieldName`, the document-type and confidence badge tables and the
  empty-value filter of `renderExtractedFields`.
- `JsString` holds the JavaScript string semantics the rest relies on:
  `String.prototype.trim` with ECMAScript's full whitespace set, ASCII case
  mapping, `includes` and decimal rendering of a status code. It also holds a
  prefix test, `StartsWith`, which the program never calls: the model uses it
  for one step of the global regular-expression replaces `/```json\n?/g` and
  `/```\n?/g`, and contracts use it to say how a message begins.
  `Wrappers` holds `Option`, `Result` and `Outcome`.

Extracted data is a `map<string, string>`. Everything the program obtains from
outside is a parameter: the model's reply is a `Result<string, string>`
(text or the thrown message), `JSON.parse` is a function
`string -> Option<Draft>`, the locale date formatter `formatDate` is a
function `string -> string`, the clock is the timestamp string `now`, and
`process.env.NODE_ENV` is an `Option<string>`.

Where the documentation and the code differ, the model follows the code:
validation runs on the unformatted draft while the summary counts the
formatted data; the client accepts "image/jpg" and does not reject an empty
file, which the server then rejects; `formatFieldName` trims its result, so a
key with a leading capital gets no leading space.

## Model

| member | source | states |
|---|---|---|
| `JsString.Trim` | backend/utils/documentProcessor.js:30 | the trimmed text is empty exactly when the input is all ECMAScript whitespace, and it neither starts nor ends with whitespace |
| `JsString.TrimIsSlice` | backend/services/geminiService.js:98 | trimming only removes characters from the two ends: the result is a contiguous slice of the input |
| `JsString.TrimOfTrimmed` | backend/services/geminiService.js:98 | trimming a string without outer whitespace returns it unchanged (trim is idempotent) |
| `JsString.NatToString` | frontend/src/services/api.js:61 | a status is rendered as decimal digits with no leading zero |
| `JsString.ToUpperCharacterised` | backend/utils/documentProcessor.js:82-89 | `toUpperCase` keeps the length, leaves no small ASCII letter and changes each character at most in case |
| `JsString.ToLowerCharacterised` | backend/services/geminiService.js:30 | `toLowerCase` keeps the length, leaves no ASCII capital and changes each character at most in case |
| `JsString.ContainsIffOccurrence` | backend/routes/upload.js:78-85 | `includes` holds exactly when the pattern occurs at some index of the message |
| `JsString.NatToStringRoundTrip` | frontend/src/services/api.js:61 | the decimal text of a status reads back as that status |
| `DocumentProcessor.RequiredFields` | backend/utils/documentProcessor.js:26-44 | only passport and driving_license have required fields, and none of them is also recommended |
| `DocumentProcessor.RecommendedFields` | backend/utils/documentProcessor.js:27-45 | only passport and driving_license have recommended fields, each listed once |
| `DocumentProcessor.IsMissingAsTrimTest` | backend/utils/documentProcessor.js:30 | a field is missing exactly when it is absent, the empty string, or empty once trimmed |
| `DocumentProcessor.MissingAmong` | backend/utils/documentProcessor.js:29-34 | the missing fields come out as an ordered sublist of the checked list |
| `DocumentProcessor.MissingAmongMembers` | backend/utils/documentProcessor.js:29-34 | a field is reported missing exactly when it is listed and its value is absent, empty or whitespace-only |
| `DocumentProcessor.CheckRequired` | backend/utils/documentProcessor.js:29-34 | the required-field loop appends the missing fields in list order, clears `isValid` iff one is missing and leaves warnings alone |
| `DocumentProcessor.CheckRecommended` | backend/utils/documentProcessor.js:36-40 | the recommended-field loop appends one warning per missing field in list order and never touches `isValid` or `missingFields` |
| `DocumentProcessor.ValidateExtractedData` | backend/utils/documentProcessor.js:18-62 | `isValid` iff no field is missing; missing fields are an ordered sublist of the type's required list holding exactly the blank ones; warnings name the blank recommended fields; any other type yields valid with no findings |
| `DocumentProcessor.RequiredFieldsDistinct` | backend/utils/documentProcessor.js:26 | no required field is listed twice for any document type |
| `DocumentProcessor.MissingFieldsAreSchemaOrdered` | backend/utils/documentProcessor.js:29-34 | any ordered sublist of the required list with exactly the blank required fields is the reported list: the order is the schema's |
| `DocumentProcessor.ValidityIgnoresNonRequiredFields` | backend/utils/documentProcessor.js:29-34 | two records that agree on which required fields are blank get the same validity and missing list, whatever else they hold |
| `DocumentProcessor.ValidationDeterminedByMissingness` | backend/utils/documentProcessor.js:18-62 | the whole validation result depends only on which listed fields are blank |
| `DocumentProcessor.WarningTextInjective` | backend/utils/documentProcessor.js:38 | different fields get different warning texts |
| `DocumentProcessor.WarningsListMissingRecommended` | backend/utils/documentProcessor.js:36-40 | there is one warning per blank recommended field, and a field's warning appears iff it is recommended and blank |
| `DocumentProcessor.UpperWordStarts` | backend/utils/documentProcessor.js:119 | a character is upper-cased exactly when it is a word character not preceded by one (the `\b\w` rule) |
| `DocumentProcessor.CapitalizeWords` | backend/utils/documentProcessor.js:116-120 | length is kept; each character is upper-cased at a word start and lower-cased elsewhere |
| `DocumentProcessor.CapitalizeWordsIdempotent` | backend/utils/documentProcessor.js:116-120 | capitalising a capitalised name changes nothing |
| `DocumentProcessor.CapitalizeWordsKeepsBlankness` | backend/utils/documentProcessor.js:116-120 | a name is blank after capitalising iff it was blank before |
| `DocumentProcessor.CapitalizeWordsAgrees` | backend/utils/documentProcessor.js:116-120 | any string meeting the per-character word-start rule is the capitalised string |
| `DocumentProcessor.CapitalizeWordsExamples` | backend/utils/documentProcessor.js:116-120 | "john smith" becomes "John Smith" and "o'brien" becomes "O'Brien" |
| `DocumentProcessor.UpdateIfTruthy` | backend/utils/documentProcessor.js:69-74 | one `if (formatted[key])` rewrite keeps the key set, leaves other keys alone and rewrites a non-empty value only |
| `DocumentProcessor.FormattedValue` | backend/utils/documentProcessor.js:65-92 | an empty value, or one under a key the formatter does not touch, is kept; outside the date fields formatting keeps the length and the blankness |
| `DocumentProcessor.FormatExtractedData` | backend/utils/documentProcessor.js:65-92 | keys are preserved; each value is formatted by its key (dates, name, the two document numbers); other keys and empty values are unchanged |
| `DocumentProcessor.FormatIdempotent` | backend/utils/documentProcessor.js:65-92 | with an idempotent date formatter, formatting formatted data changes nothing |
| `DocumentProcessor.FormattedValueIdempotent` | backend/utils/documentProcessor.js:77-89 | each per-key rewrite is idempotent when the date formatter is |
| `DocumentProcessor.FormatKeepsRequiredMissingness` | backend/utils/documentProcessor.js:77-89 | formatting never makes a required field blank or non-blank, for any date formatter |
| `DocumentProcessor.FormatKeepsMissingness` | backend/utils/documentProcessor.js:65-92 | when the date formatter keeps non-empty text blank iff blank, formatting keeps every field's blankness |
| `DocumentProcessor.GenerateProcessingSummary` | backend/utils/documentProcessor.js:123-134 | counts the keys, reports "passed" iff valid, and counts missing fields and warnings |
| `DocumentProcessor.ValidateFile` | backend/utils/documentProcessor.js:137-160 | passes iff present, a regular file, non-empty and at most 10 MiB; each failure has its own reason in check order, prefixed "File validation failed: " |
| `DocumentProcessor.IntakeSizeBoundary` | backend/utils/documentProcessor.js:152-154 | exactly 10 MiB passes and one byte more fails as too large |
| `GeminiService.DropTrailingSlashes` | backend/services/geminiService.js:30 | only trailing slashes are removed, and none remains |
| `GeminiService.LastSegment` | backend/services/geminiService.js:30 | the last path segment is a slash-free suffix preceded by a slash when shorter than the path |
| `GeminiService.LastDot` | backend/services/geminiService.js:30 | finds the last dot of a segment, or reports there is none |
| `GeminiService.SegmentExtension` | backend/services/geminiService.js:30 | a segment's extension is a suffix that starts with its only dot, and it is empty exactly when the segment is ".." or has no dot past its first character |
| `GeminiService.Extname` | backend/services/geminiService.js:30 | the extension is a suffix of the last path segment (trailing `/` ignored), is empty or a dot followed by text with no dot and no slash, and is empty exactly when that segment is ".." or has no dot past its first character |
| `GeminiService.ExtnameFromLastDot` | backend/services/geminiService.js:30 | in a slash-free name other than "..", a last dot past the first character starts the extension |
| `GeminiService.ExtnameOfBareName` | backend/services/geminiService.js:30 | a bare "stem.ext" with a slash-free stem, dots allowed, has extension ".ext" |
| `GeminiService.MultiDotPngExample` | backend/services/geminiService.js:30-40 | "scan.v2.png" is sent as image/png |
| `GeminiService.GetMimeType` | backend/services/geminiService.js:29-41 | the lower-cased extension is looked up in the table; anything unlisted gives image/jpeg; the result is always one of the five image types |
| `GeminiService.ExtnameOfLower` | backend/services/geminiService.js:30 | the extension of the lower-cased path is the lower-cased extension |
| `GeminiService.GetMimeTypeIgnoresCase` | backend/services/geminiService.js:29-41 | paths that differ only in ASCII case get the same type |
| `GeminiService.ExtnameOfSimplePath` | backend/services/geminiService.js:30 | "dir/stem.ext" has extension ".ext" |
| `GeminiService.UpperCasePngExample` | backend/services/geminiService.js:29-41 | a ".PNG" file is typed image/png |
| `GeminiService.DotFileHasNoExtension` | backend/services/geminiService.js:30 | a dot file such as ".env" has no extension |
| `GeminiService.DotFileIsJpeg` | backend/services/geminiService.js:29-41 | a dot file falls back to image/jpeg |
| `GeminiService.NoExtensionIsJpeg` | backend/services/geminiService.js:38-40 | a path without extension falls back to image/jpeg |
| `GeminiService.StripJsonFences` | backend/services/geminiService.js:98 | removing "```json" markers never lengthens the text |
| `GeminiService.StripFences` | backend/services/geminiService.js:98 | removing "```" markers never lengthens the text |
| `GeminiService.StripKeepsBacktickFreePrefix` | backend/services/geminiService.js:98 | fence removal leaves backtick-free text untouched |
| `GeminiService.CleanPlainText` | backend/services/geminiService.js:98 | backtick-free model text is cleaned to its trimmed self |
| `GeminiService.CleanFencedJson` | backend/services/geminiService.js:98 | a "```json" fenced backtick-free body is cleaned to the trimmed body |
| `GeminiService.StripFencesLeavesNoMarker` | backend/services/geminiService.js:98 | after fence removal no "```" remains in the text |
| `GeminiService.CleanResponseText` | backend/services/geminiService.js:98 | the text handed to the JSON parser neither starts nor ends with whitespace and never contains "```" |
| `GeminiService.FallbackDraft` | backend/services/geminiService.js:107-115 | the degraded record is an unknown document with low confidence whose data is exactly the raw reply and the parse-failure marker |
| `GeminiService.InterpretResponse` | backend/services/geminiService.js:98-116 | a parsed reply is returned as parsed; an unparsable one becomes the unknown/low fallback holding the uncleaned text and the parse-failure marker |
| `GeminiService.AnalyzeDocument` | backend/services/geminiService.js:44-121 | succeeds iff the model call succeeds; a failure is re-thrown as "Document analysis failed: " plus the original message |
| `GeminiService.RewrapKeepsClassification` | backend/services/geminiService.js:117-120 | the re-wrapped message contains "API key" or "rate limit" iff the original does |
| `UploadRoute.ErrorResponse` | backend/routes/upload.js:74-96 | "API key" gives 500 with the configuration message, ahead of "rate limit" which gives 429; anything else is a 500; the 429 reply carries exactly the rate-limit text and the plain 500 exactly the generic failure text, the one when neither substring occurs; the detail is attached only in development |
| `UploadRoute.BuildAnalysisData` | backend/routes/upload.js:41-70 | the type and confidence come from the draft, validation is of the raw data, the data shown is the formatted data and the summary counts it; the status is "passed" when the data is valid and "failed" otherwise |
| `UploadRoute.Analyze` | backend/routes/upload.js:11-105 | no file gives 400 with nothing else done; extraction is requested iff intake passes; success iff extraction succeeds; cleanup is scheduled iff a path was obtained |
| `UploadRoute.IntakeFailureShortCircuits` | backend/routes/upload.js:27-34 | a failing intake check gives 400 with the validator's message, whatever the model would have said |
| `UploadRoute.UnusableFilesNeverReachTheModel` | backend/routes/upload.js:27-34 | missing, non-regular, empty and oversized files are answered with 400 and never sent for extraction |
| `UploadRoute.ValidatingFormattedDataAgreesOnRequiredFields` | backend/routes/upload.js:42-50 | validating the formatted data instead of the raw data gives the same validity and missing list |
| `UploadRoute.ValidatingFormattedDataAgrees` | backend/routes/upload.js:42-57 | with a blankness-keeping date formatter, the whole validation agrees, the summary is the one of the formatted data with its own validation, and its key count is the raw key count |
| `UploadRoute.ModelErrorsAreClassifiedByTheirOwnText` | backend/routes/upload.js:74-96 | a failed extraction is classified as if the original model error had reached the route |
| `UploadRoute.NoErrorDetailOutsideDevelopment` | backend/routes/upload.js:92-96 | outside development no failure response carries error detail |
| `UploadRoute.UnformattedDataKept` | backend/utils/documentProcessor.js:65-92 | data with none of the formatted keys is passed through unchanged |
| `UploadRoute.UnparsableReplyIsAbsorbed` | backend/services/geminiService.js:103-116 | an unparsable reply still gives 200 with the unknown/low record holding the raw reply, which validates with no findings |
| `UploadRoute.ParsedReplyIsAnalysed` | backend/services/geminiService.js:100-102 | a parsed reply gives 200 with the analysis of exactly the parsed draft |
| `UploadRoute.PassportExample` | backend/routes/upload.js:41-72 | a passport reply with a lower-case number and name comes back valid, with "AB123456" and "John Smith" |
| `UploadRoute.SupportedTypes` | backend/routes/upload.js:117-156 | passport then driving licence, each advertising its required and recommended fields with no duplicates, the formats JPEG, PNG, GIF, BMP and WEBP, and a 10MB ceiling |
| `ApiClient.ValidateSelectedFile` | frontend/src/services/api.js:139-168 | no file gives only "No file selected"; otherwise the size error appears iff over 10 MiB and the type error iff the type is not allowed, in that order |
| `ApiClient.ClientAndServerAgreeOnSize` | frontend/src/services/api.js:148-151 | for a non-empty file the client's size check passes iff the server's intake passes; an empty file passes the client and fails the server |
| `ApiClient.ServerMimeTypesAreAllowed` | frontend/src/services/api.js:154-165 | every type the server declares for an upload is on the client's list |
| `ApiClient.OrElse` | frontend/src/services/api.js:47 | a non-empty server message wins over the fallback |
| `ApiClient.ErrorMessage` | frontend/src/services/api.js:37-70 | 401/403/404/413/429 have fixed texts; 400, 500 and others prefer the server message; no response gives the network message; the message is never empty |
| `ApiClient.FixedStatusesIgnoreServerMessage` | frontend/src/services/api.js:48-57 | for the fixed statuses the server's message makes no difference |
| `ApiClient.DefaultMessageNamesStatus` | frontend/src/services/api.js:60-61 | the default message is the prefix followed by digits that read back as the status |
| `ApiClient.RouteFailuresAsShown` | frontend/src/services/api.js:45-62 | every failure of the analyze route reaches the user as the route's own message, except 429 which is reworded |
| `DocumentResultView.UpperFirst` | frontend/src/components/DocumentResult.js:58 | only the first character changes, to its upper case |
| `DocumentResultView.FormatFieldName` | frontend/src/components/DocumentResult.js:55-60 | the label has no outer whitespace and is empty exactly when the key is empty or all whitespace |
| `DocumentResultView.SpaceBeforeCapitals` | frontend/src/components/DocumentResult.js:57 | inserting spaces never shortens the key (its character-by-character behaviour is stated by `SpaceBeforeCapitalsAppend` and `RemoveInsertedSpaces`) |
| `DocumentResultView.SpaceBeforeCapitalsKeepsBlankness` | frontend/src/components/DocumentResult.js:57 | the spaced key is all whitespace iff the key is |
| `DocumentResultView.UpperFirstKeepsBlankness` | frontend/src/components/DocumentResult.js:58 | upper-casing the first character keeps a blank key blank and a non-blank key non-blank |
| `DocumentResultView.RemoveInsertedSpaces` | frontend/src/components/DocumentResult.js:57 | removing spaces undoes the space insertion on a space-free key |
| `DocumentResultView.SpaceBeforeCapitalsAppend` | frontend/src/components/DocumentResult.js:57 | the space insertion works character by character |
| `DocumentResultView.FormatFieldNameOnlyAddsSpaces` | frontend/src/components/DocumentResult.js:55-60 | deleting the spaces from a whitespace-free key's label gives the key with its first letter upper-cased |
| `DocumentResultView.CamelCaseLabel` | frontend/src/components/DocumentResult.js:55-60 | "firstWord" style keys become "First Word" |
| `DocumentResultView.PassportNumberLabel` | frontend/src/components/DocumentResult.js:55-60 | "passportNumber" becomes "Passport Number" |
| `DocumentResultView.LeadingCapitalLabel` | frontend/src/components/DocumentResult.js:55-60 | a key starting with a capital gets no leading space |
| `DocumentResultView.DocumentTypeInfo` | frontend/src/components/DocumentResult.js:14-35 | passport is the blue Passport badge with the passport-control icon, driving_license the green Driving License badge with the car icon, anything else the gray Unknown Document badge with the question-mark icon; the label names the type |
| `DocumentResultView.KnownBadgeIffSchema` | frontend/src/components/DocumentResult.js:14-35 | a type gets a named badge iff the server validator has a schema for it |
| `DocumentResultView.ConfidenceInfo` | frontend/src/components/DocumentResult.js:38-49 | high, medium and low map to success/90-100%, warning/70-89% and error/50-69%; anything else is gray "Unknown" |
| `DocumentResultView.FallbackShowsUnknownLow` | frontend/src/components/DocumentResult.js:14-49 | the server's parse-failure record shows as an Unknown Document with the low-confidence badge |
| `DocumentResultView.NonBlankEntries` | frontend/src/components/DocumentResult.js:72-81 | the kept entries are in input order and are exactly the entries with non-blank values |
| `DocumentResultView.ExtractedFieldsView` | frontend/src/components/DocumentResult.js:63-82 | no entries give the no-data message; otherwise one row per non-blank entry, in order, labelled by `formatFieldName` |
| `DocumentResultView.ShownIffNotBlank` | frontend/src/components/DocumentResult.js:63-81 | for any record, the view lists fields exactly when the record is non-empty, and a key gets a row iff it is present with a non-blank value |
| `DocumentResultView.ValidRequiredFieldsAreShown` | frontend/src/components/DocumentResult.js:72-81 | every required field of a valid analysis is displayed after formatting |

## Left out

- `cleanupFile` and all file-system access (`existsSync`, `statSync`, `readFileSync`, base64 encoding in `fileToGenerativePart`): the model keeps only the stat record and whether cleanup is scheduled.
- `formatDate`: it depends on JavaScript `Date` parsing and locale formatting, so it is a parameter; properties that need more than that carry it as a precondition.
- `withRateLimit` and the one-second delay before cleanup: timing only.
- The Gemini SDK call, the API-key check in the constructor and the prompt text: the reply is a parameter.
- The `/health` endpoint, the multer upload middleware and `handleUploadError`.
- The client's `apiService` wrappers, axios configuration, request logging, upload-progress percentages, `formatFileSize` (floating point) and the file-preview helpers.
- React rendering, `App.js`, `DocumentUpload.js`, `LoadingSpinner.js` and the JSON download.
- Non-ASCII case mapping and UTF-16 surrogate pairs: case mapping is ASCII only, and `\w` is `[A-Za-z0-9_]`.
- A reply that parses to something other than an object of the expected shape: `parse` yields a `Draft` with a string-valued `extractedData` or nothing. A reply that parses to JSON `null` makes upload.js:43 throw a `TypeError`, which the route answers with the generic 500; the model does not represent that outcome, so `UploadRoute.Analyze` answers 200 for every successful reply. Likewise not modelled: a parsed number, string, boolean or array; an `extractedData` that is absent, `null` or not an object; non-string field values. The exceptions validation or formatting could throw on such a value are left out with them.
- An error response with no body `data` at status 400, 500 or an unlisted status: api.js:47, 59 and 61 read `data.message`, which throws a `TypeError` there, so the caller sees that error's own text. The model has no such case: an absent `serverMessage` stands for a body without a `message`, and gets the fallback text.
- `Object.entries` key order: `EntriesOf` fixes only that the entries are those of the map, each key once, so order-sensitive results are stated relative to the entries sequence.
- The passport and driving-licence blocks of `validateExtractedData` are modelled as exclusive branches; they are, since a type cannot equal both strings.
- `DocumentResultView.SpaceBeforeCapitals`: its own contract states only that the result is no shorter; what it does is stated by `SpaceBeforeCapital`, `SpaceBeforeCapitalsAppend` and `RemoveInsertedSpaces`.
- `DocumentProcessor.MissingAmong`: its own contract states only the sublist shape; membership is stated by `MissingAmongMembers`.
- `GeminiService.StripJsonFences`: its own contract states only that it does not lengthen the text; its behaviour is stated by `StripJsonKeepsBacktickFreePrefix` and `CleanFencedJson`.
- `GeminiService.StripFences`: its own contract states only that it does not lengthen the text; its behaviour is stated by `StripKeepsBacktickFreePrefix`, `CleanFencedJson` and `StripFencesLeavesNoMarker`.
