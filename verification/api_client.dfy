/** The browser-side helpers of the API client: the check a selected file
    must pass before upload (`fileUtils.validateFile`) and the message the
    response interceptor turns a failed request into. */
module ApiClient {
  import opened Wrappers
  import opened JsString
  import DocumentProcessor
  import GeminiService
  import UploadRoute

  /** The parts of a browser `File` the check reads. */
  datatype SelectedFile = SelectedFile(size: nat, mimeType: string)

  /** 10 MiB, as on the server. */
  const ClientMaxSize: nat := 10 * 1024 * 1024

  /** The declared types the client accepts; note "image/jpg". */
  const AllowedTypes: seq<string> :=
    ["image/jpeg", "image/jpg", "image/png", "image/gif", "image/bmp", "image/webp"]

  const NoFileSelected: string := "No file selected"
  const FileSizeMessage: string := "File size must be less than 10MB"
  const FileTypeMessage: string := "File must be an image (JPEG, PNG, GIF, BMP, or WebP)"

  /** `fileUtils.validateFile`: no file is the only error when nothing is
      selected; otherwise the size problem, then the type problem. */
  function ValidateSelectedFile(file: Option<SelectedFile>): (errors: seq<string>)
    ensures file.None? ==> errors == [NoFileSelected]
    ensures file.Some? ==> NoFileSelected !in errors && |errors| <= 2
    ensures file.Some? ==> (FileSizeMessage in errors <==> file.value.size > ClientMaxSize)
    ensures file.Some? ==> (FileTypeMessage in errors <==> file.value.mimeType !in AllowedTypes)
    ensures file.Some? && |errors| == 2 ==> errors == [FileSizeMessage, FileTypeMessage]
    ensures errors == [] <==> file.Some? && file.value.size <= ClientMaxSize && file.value.mimeType in AllowedTypes
  {
    match file
    case None => [NoFileSelected]
    case Some(f) =>
      (if f.size > ClientMaxSize then [FileSizeMessage] else [])
      + (if f.mimeType !in AllowedTypes then [FileTypeMessage] else [])
  }

  /** Client and server agree on the size ceiling for every non-empty file;
      an empty file passes the client and is stopped by the server's intake
      check. */
  lemma ClientAndServerAgreeOnSize(size: nat, mimeType: string)
    ensures size > 0 ==>
      (FileSizeMessage !in ValidateSelectedFile(Some(SelectedFile(size, mimeType)))
       <==> DocumentProcessor.ValidateFile(DocumentProcessor.FileStat(true, true, size)).Pass?)
    ensures FileSizeMessage !in ValidateSelectedFile(Some(SelectedFile(0, mimeType)))
    ensures DocumentProcessor.ValidateFile(DocumentProcessor.FileStat(true, true, 0))
      == Fail(DocumentProcessor.IntakeErrorPrefix + "File is empty")
  {
  }

  /** Each of the server's image types is on the client's list. */
  lemma ImageTypeAllowed(t: string)
    requires t in GeminiService.ImageMimeTypes
    ensures t in AllowedTypes
  {
    if t == "image/jpeg" {
      assert AllowedTypes[0] == t;
    } else if t == "image/png" {
      assert AllowedTypes[2] == t;
    } else if t == "image/gif" {
      assert AllowedTypes[3] == t;
    } else if t == "image/bmp" {
      assert AllowedTypes[4] == t;
    } else {
      assert AllowedTypes[5] == t;
    }
  }

  /** Every type the extraction client can declare for an image is one the
      browser check accepts. */
  lemma ServerMimeTypesAreAllowed(filePath: string)
    ensures GeminiService.GetMimeType(filePath) in AllowedTypes
  {
    ImageTypeAllowed(GeminiService.GetMimeType(filePath));
  }

  /** What the interceptor is handed: a response with its status and the
      `message` of its JSON body (None when absent), a request that got no
      response, or an error raised while setting the request up. */
  datatype RequestError =
    | ResponseError(status: nat, serverMessage: Option<string>)
    | NoResponse
    | SetupError(message: Option<string>)

  const InvalidRequestMessage: string := "Invalid request. Please check your input."
  const UnauthorizedMessage: string := "Unauthorized. Please check your credentials."
  const ForbiddenMessage: string := "Access forbidden. You don't have permission to perform this action."
  const NotFoundMessage: string := "Service not found. Please try again later."
  const TooLargeMessage: string := "File too large. Please upload a smaller file."
  const TooManyRequestsMessage: string := "Too many requests. Please wait a moment before trying again."
  const ServerErrorMessage: string := "Server error. Please try again later."
  const StatusFailurePrefix: string := "Request failed with status "
  const NetworkErrorMessage: string := "Network error. Please check your internet connection and try again."
  const UnexpectedErrorMessage: string := "An unexpected error occurred."

  /** The statuses whose message is fixed, whatever the server said. */
  const FixedMessages: map<nat, string> := map[
    401 := UnauthorizedMessage,
    403 := ForbiddenMessage,
    404 := NotFoundMessage,
    413 := TooLargeMessage,
    429 := TooManyRequestsMessage]

  /** `value || fallback` for a string that may be absent. */
  function OrElse(value: Option<string>, fallback: string): (r: string)
    ensures value.Some? && value.value != "" ==> r == value.value
    ensures value.None? || value.value == "" ==> r == fallback
  {
    if value.Some? && value.value != "" then value.value else fallback
  }

  /** The message of the error the interceptor throws. */
  function ErrorMessage(e: RequestError): (r: string)
    ensures r != []
    ensures e.ResponseError? && e.status in FixedMessages ==> r == FixedMessages[e.status]
    ensures e.ResponseError? && e.status !in FixedMessages && e.serverMessage.Some? && e.serverMessage.value != "" ==>
      r == e.serverMessage.value
    ensures e.ResponseError? && e.status !in FixedMessages && (e.serverMessage.None? || e.serverMessage.value == "") ==>
      r == (if e.status == 400 then InvalidRequestMessage
            else if e.status == 500 then ServerErrorMessage
            else StatusFailurePrefix + NatToString(e.status))
    ensures e.NoResponse? ==> r == NetworkErrorMessage
    ensures e.SetupError? ==> r == OrElse(e.message, UnexpectedErrorMessage)
  {
    match e
    case ResponseError(status, serverMessage) =>
      if status == 400 then OrElse(serverMessage, InvalidRequestMessage)
      else if status == 401 then UnauthorizedMessage
      else if status == 403 then ForbiddenMessage
      else if status == 404 then NotFoundMessage
      else if status == 413 then TooLargeMessage
      else if status == 429 then TooManyRequestsMessage
      else if status == 500 then OrElse(serverMessage, ServerErrorMessage)
      else OrElse(serverMessage, StatusFailurePrefix + NatToString(status))
    case NoResponse => NetworkErrorMessage
    case SetupError(message) => OrElse(message, UnexpectedErrorMessage)
  }

  /** For 401, 403, 404, 413 and 429 the server's own message never shows. */
  lemma FixedStatusesIgnoreServerMessage(status: nat, m1: Option<string>, m2: Option<string>)
    requires status in {401, 403, 404, 413, 429}
    ensures ErrorMessage(ResponseError(status, m1)) == ErrorMessage(ResponseError(status, m2))
  {
  }

  /** The fallback for an unlisted status names it: the digits after the
      prefix read back as the status. */
  lemma DefaultMessageNamesStatus(status: nat)
    requires status !in FixedMessages && status != 400 && status != 500
    ensures var r := ErrorMessage(ResponseError(status, None));
      && StartsWith(r, StatusFailurePrefix)
      && AllDigits(r[|StatusFailurePrefix|..])
      && DigitsValue(r[|StatusFailurePrefix|..]) == status
  {
    var r := ErrorMessage(ResponseError(status, None));
    assert r == StatusFailurePrefix + NatToString(status);
    assert r[|StatusFailurePrefix|..] == NatToString(status);
    NatToStringRoundTrip(status);
  }

  /** Every failure the analyze route answers with reaches the user as the
      route's own message, except a 429, which the client replaces with its
      own wording. */
  lemma RouteFailuresAsShown(file: Option<UploadRoute.UploadedFile>, env: UploadRoute.Environment)
    ensures var r := UploadRoute.Analyze(file, env).response;
      r.status != 200 ==>
        ErrorMessage(ResponseError(r.status, Some(r.body.message)))
        == (if r.status == 429 then TooManyRequestsMessage else r.body.message)
  {
    var r := UploadRoute.Analyze(file, env).response;
    if r.status != 200 {
      RouteFailureMessageNotEmpty(file, env);
    }
  }

  /** The route never fails with an empty message. */
  lemma RouteFailureMessageNotEmpty(file: Option<UploadRoute.UploadedFile>, env: UploadRoute.Environment)
    ensures var r := UploadRoute.Analyze(file, env).response;
      r.body.Failed? ==> r.body.message != ""
  {
    var r := UploadRoute.Analyze(file, env).response;
    if file.Some? && DocumentProcessor.ValidateFile(file.value.stat).Fail? {
      assert r.body.message == DocumentProcessor.ValidateFile(file.value.stat).error;
    }
  }
}
