/**
 * The upload endpoint src/app/api/uploud/route.js. `POST` reads the `file`
 * field of the submitted multipart form, chooses the name the blob is stored
 * under, hands it to the blob store with public access, and answers with
 * exactly one JSON response: 400, 200 or 500. The parsed form, the clock
 * (`Date.now()`) and the outcome of the store's `put` are parameters.
 */
module UploadRoute {
  import opened Wrappers
  import opened JsText
  import UriComponent
  import PageText

  /** What `formData.get("file")` returns when the field exists: a file part
      with its name, or a plain text field. */
  datatype FormValue =
    | FilePart(name: string, bytes: seq<UriComponent.Byte>)
    | TextField(text: string)

  /** `file` is truthy: the field exists and is not the empty string (a file
      part is an object, always truthy). */
  predicate IsPresent(file: Option<FormValue>) {
    file.Some? && (file.value.FilePart? || file.value.text != [])
  }

  const NoFileMessage := "No file provided"
  const UploadFailedMessage := "Upload failed"
  const FallbackPrefix := "surat-penawaran-"
  const FallbackSuffix := ".pdf"
  const PublicAccess := "public"

  /** `file.name?.trim()`, kept only when truthy: a text field has no `name`. */
  function GivenName(file: FormValue): (r: Option<string>)
    ensures r.Some? <==> file.FilePart? && Trim(file.name) != []
    ensures r.Some? ==> r.value == Trim(file.name)
    ensures r.Some? ==> && 0 < |r.value| <= |file.name|
                        && !IsJsWhitespace(r.value[0]) && !IsJsWhitespace(r.value[|r.value| - 1])
  {
    if file.FilePart? && Trim(file.name) != [] then Some(Trim(file.name)) else None
  }

  /** `surat-penawaran-${Date.now().toString().slice(-6)}.pdf`. */
  function FallbackName(now: nat): (name: string)
    ensures 21 <= |name| <= 26
    ensures name[..16] == FallbackPrefix && name[|name| - 4..] == FallbackSuffix
  {
    var name := FallbackPrefix + SliceLast(DecimalString(now), 6) + FallbackSuffix;
    assert name[..16] == FallbackPrefix;
    name
  }

  /** The name the file is stored under (route.js:15-17). */
  function StoredName(file: FormValue, now: nat): (name: string)
    ensures name != []
  {
    var given := GivenName(file);
    if given.Some? then given.value else FallbackName(now)
  }

  /** The call `put(filename, file, { access: "public" })`. */
  datatype PutCall = PutCall(pathname: string, body: FormValue, access: string)

  /** How the blob store answers: the stored blob's URL, or a thrown error
      with its message (empty when missing). */
  datatype PutOutcome = PutResolved(url: string) | PutRejected(message: string)

  datatype Body = UrlBody(url: string) | ErrorBody(error: string)
  datatype Response = Response(status: int, body: Body)

  /** The response and the store call the request made, if any. */
  datatype Handling = Handling(response: Response, put: Option<PutCall>)

  /** `err?.message || "Upload failed"`. */
  function ErrorText(message: string): (text: string)
    ensures text != []
    ensures message != [] ==> text == message
    ensures message == [] ==> text == UploadFailedMessage
  {
    if message != [] then message else UploadFailedMessage
  }

  /** `POST(req)`: `form` is what `req.formData()` gave (a failure when it
      rejects), holding the value of the `file` field if there is one. */
  function Post(form: Result<Option<FormValue>>, now: nat, stored: PutOutcome): (h: Handling)
    ensures h.response.status == 400 || h.response.status == 200 || h.response.status == 500
    ensures h.response.status == 200 <==> h.response.body.UrlBody?
    ensures h.response.status == 400 <==> form.Success? && !IsPresent(form.value)
    ensures h.response.status == 400 ==> h.response.body == ErrorBody(NoFileMessage)
    ensures h.put.Some? <==> form.Success? && IsPresent(form.value)
    ensures h.put.Some? ==>
      h.put.value == PutCall(StoredName(form.value.value, now), form.value.value, PublicAccess)
    ensures h.response.status == 200 <==> h.put.Some? && stored.PutResolved?
    ensures h.response.status == 200 ==> h.response.body.url == stored.url
    ensures form.Failure? ==> h.response == Response(500, ErrorBody(ErrorText(form.message)))
    ensures h.put.Some? && stored.PutRejected? ==>
      h.response == Response(500, ErrorBody(ErrorText(stored.message)))
  {
    if form.Failure? then Handling(Response(500, ErrorBody(ErrorText(form.message))), None)
    else if !IsPresent(form.value) then Handling(Response(400, ErrorBody(NoFileMessage)), None)
    else
      var file := form.value.value;
      var call := PutCall(StoredName(file, now), file, PublicAccess);
      match stored
      case PutResolved(url) => Handling(Response(200, UrlBody(url)), Some(call))
      case PutRejected(m) => Handling(Response(500, ErrorBody(ErrorText(m))), Some(call))
  }

  // ---- The stored name ----

  /** The fallback name: the prefix, the last six decimal digits of the
      timestamp (all of them when there are fewer), the extension; 26
      characters once the timestamp has six digits or more. */
  lemma FallbackNameShape(now: nat)
    ensures var name := FallbackName(now);
      var digits := SliceLast(DecimalString(now), 6);
      && name == FallbackPrefix + digits + FallbackSuffix
      && AllDigits(digits) && 1 <= |digits| <= 6
      && (now >= 100000 <==> |name| == 26)
  {
    DecimalStringLength(now, 5);
    assert Pow10(5) == 100000;
  }

  /** The six digits of the fallback name denote the timestamp modulo 10^6. */
  lemma FallbackNameDigits(now: nat)
    ensures var digits := SliceLast(DecimalString(now), 6);
      AllDigits(digits) && DigitsValue(digits) == now % 1000000
  {
    DecimalSuffixValue(now, 6);
    assert Pow10(6) == 1000000;
  }

  /** The stored name is the trimmed file name when that is non-empty, and
      the fallback name otherwise, for a text field in particular. */
  lemma StoredNameCases(file: FormValue, now: nat)
    ensures file.FilePart? && Trim(file.name) != [] ==> StoredName(file, now) == Trim(file.name)
    ensures file.FilePart? && Trim(file.name) == [] ==> StoredName(file, now) == FallbackName(now)
    ensures file.TextField? ==> StoredName(file, now) == FallbackName(now)
  {
  }

  /** The page always sends a non-empty name without whitespace
      (`PdfFilename`), so the route stores the file under exactly the name
      the page gave it and the fallback is never used for it. */
  lemma {:induction false} PageNameIsKept(kepada: string, bytes: seq<UriComponent.Byte>, now: nat, stored: PutOutcome)
    ensures Post(Success(Some(FilePart(PageText.PdfFilename(kepada), bytes))), now, stored).put
      == Some(PutCall(PageText.PdfFilename(kepada), FilePart(PageText.PdfFilename(kepada), bytes), PublicAccess))
  {
    var name := PageText.PdfFilename(kepada);
    WhitespaceFreeNameKept(name, bytes, now);
    assert IsPresent(Some(FilePart(name, bytes)));
  }

  /** A non-empty file name without whitespace is stored as it is. */
  lemma WhitespaceFreeNameKept(name: string, bytes: seq<UriComponent.Byte>, now: nat)
    requires name != [] && NoWhitespace(name)
    ensures StoredName(FilePart(name, bytes), now) == name
  {
    TrimNoWhitespace(name);
    assert GivenName(FilePart(name, bytes)) == Some(name);
  }

  // ---- Scenarios ----

  /** A form without a `file` field: 400 with "No file provided", no store call. */
  lemma NoFileScenario(now: nat, stored: PutOutcome)
    ensures Post(Success(None), now, stored) == Handling(Response(400, ErrorBody("No file provided")), None)
    ensures Post(Success(Some(TextField(""))), now, stored) == Handling(Response(400, ErrorBody("No file provided")), None)
  {
  }

  /** The store fails with "disk full": 500 with that message; with an empty
      message, 500 with "Upload failed". */
  lemma StoreFailureScenario(file: FormValue, now: nat)
    requires IsPresent(Some(file))
    ensures Post(Success(Some(file)), now, PutRejected("disk full")).response == Response(500, ErrorBody("disk full"))
    ensures Post(Success(Some(file)), now, PutRejected("")).response == Response(500, ErrorBody("Upload failed"))
  {
  }
}
