# Surat Penawaran: a Dafny model of the offer-letter page and its upload route

The repository is a one-page Next.js application. It edits an offer letter
("surat penawaran") for a coach-body builder, renders it to PDF in the browser
with html2pdf, and either downloads the PDF or sends it. Sending uses the
native share sheet when the platform can share files. Otherwise the page
uploads the PDF to a blob store through an API route and opens a WhatsApp
`wa.me` link whose text carries the file's URL.

This project models the logic of `src/app/page.js` and of the route
`src/app/api/uploud/route.js`. It proves contracts and lemmas about that logic.
The modules follow the program:

- `Wrappers`: `Option` and `Result`.
- `JsText`: the JavaScript string built-ins the core uses:
  - the `\s` class (ECMAScript WhiteSpace and LineTerminator);
  - `replace(/\s/g, "_")` and `trim()`;
  - `Number.prototype.toString()` on non-negative integers;
  - `slice(-n)`;
  - ASCII `toUpperCase`.
- `UriComponent`: `encodeURIComponent` over UTF-8. A decoder is its partner, and the round trip is proved.
- `Rupiah`: `formatRupiah`, with its regular expression stated literally. It is
  proved equal to a reference thousands grouping on digit strings. Further
  lemmas give its separator count, that it is idempotent, and that it inserts
  nothing but separators. The letter's preview prints the price field through
  it as `Rp{formatRupiah(formData.harga)},00` (`src/app/page.js:422`); that
  text is `PriceText`.
- `PageText`: the label derived from a specification key, the PDF file name,
  the WhatsApp link and greeting, and the alert text `e.message || fallback`.
- `OfferForm`: the form record with its initial state, and `handleInputChange`.
  The `spesifikasi` object is the list of its entries in JavaScript's
  enumeration order: keys that are array indices first, in ascending numeric
  order, then the other keys in the order they were added.
- `Delivery`: the page as a class. Its fields are:
  - the record;
  - `busy`;
  - whether the module variable `html2pdf` is loaded;
  - the trace of effects the user or another system can observe.

  It has one method per helper and per button handler. Each method appends to
  the trace exactly what a specification function (`Generate`,
  `DownloadEffects`, `SendEffects`) says. The class invariant says the PDF
  library is loaded on demand at most once, and only if it is loaded
  afterwards. It also says the `spesifikasi` entries are those of an
  object: no key twice, keys in enumeration order. `downloadBlob` appears
  as the `Download` effect.
- `DeliveryProperties`: what the two handlers promise, stated over those traces:
  - the render precedes every delivery;
  - share and upload exclude each other;
  - WhatsApp opens exactly when the upload returned a URL, as the last effect;
  - at most one alert, as the last effect, never empty;
  - the error messages chosen.
- `UploadRoute`: `POST`, returning 400, 200 or 500, with the stored name and the error text chosen.

The browser, html2pdf, `navigator.share`, `fetch`, the blob store and the
clock are not modelled. What they contribute enters as parameters:
- `found` (the container exists);
- `ImportOutcome`, `RenderOutcome`, `canShare` and `ShareOutcome`;
- `UploadOutcome` (the response of the upload request), `PutOutcome`;
- `now` for `Date.now()`;
- `tanggal` for the formatted date.

Two behaviours of the code are worth naming:
- A share the user cancels makes `navigator.share` reject. The code
  (`src/app/page.js:178-189`) catches that rejection and alerts it, like any
  other error, so a cancelled share is not a silent success.
  `CancelledShareAlerts` states this.
- The page posts to `/api/upload` (`src/app/page.js:69`), but the route lives
  under `src/app/api/uploud/`. The two are modelled separately. The
  upload request's answer is the `UploadOutcome` parameter, whichever
  endpoint answers it.

## Model

| member | source | states |
|---|---|---|
| JsText.JsWhitespaceMembers | src/app/page.js:156 | `\s` matches the space, the tab, U+00A0, U+FEFF and every line terminator, and no word character |
| JsText.ToUpperAscii | src/app/page.js:366 | a lower-case ASCII letter becomes its upper-case letter; any other character is unchanged |
| JsText.ReplaceWhitespace | src/app/page.js:154-157 | same length; each position that holds a `\s` character holds `_`, every other character is kept |
| JsText.Trim | src/app/api/uploud/route.js:16 | the result is a prefix of the input with its leading whitespace removed; every character removed after it is whitespace; it neither starts nor ends with whitespace |
| JsText.TrimEmptyIff | src/app/api/uploud/route.js:16 | the trimmed name is empty exactly when every character is whitespace |
| JsText.TrimNoWhitespace | src/app/api/uploud/route.js:16 | a name without whitespace is unchanged by trimming |
| JsText.SliceLast | src/app/api/uploud/route.js:17 | `slice(-n)` for n > 0: the last n characters, or all of them when there are fewer; the slice of a digit string is a digit string |
| JsText.DecimalString | src/app/api/uploud/route.js:17 | `toString()` of a non-negative integer is a non-empty digit string ending in the digit of n mod 10 |
| JsText.DecimalStringLength | src/app/api/uploud/route.js:17 | the decimal string has more than k digits exactly when n >= 10^k |
| JsText.DecimalStringValue | src/app/api/uploud/route.js:17 | the digits of `toString()` denote n |
| JsText.DecimalSuffixValue | src/app/api/uploud/route.js:17 | the last k digits of `toString()` denote n mod 10^k |
| JsText.CanonicalDecimal | src/app/page.js:138-141 | a digit string without a leading zero is the `toString()` of its value |
| JsText.ArrayIndexInjective | src/app/page.js:138-141 | two array-index keys with the same numeric value are the same key |
| JsText.ArrayIndexExamples | src/app/page.js:138-141 | `0` and `12` are array indices; the empty key, `01` and `modelBody` are not |
| UriComponent.Utf8 | src/app/page.js:80 | one to four UTF-8 bytes per code point, and exactly one for ASCII |
| UriComponent.EncodeUriComponent | src/app/page.js:80 | the output consists of `%` and unreserved characters only, and is at least as long as the input and at most twelve times as long |
| UriComponent.EncodedHasNoSeparators | src/app/page.js:80-81 | no space, line break, `&`, `#`, `?`, `=`, `+` or `/` survives the encoding, so the text cannot split the query |
| UriComponent.DecodeEncodeChar | src/app/page.js:80 | decoding the encoding of one character, whatever follows it, gives back that character and the rest |
| UriComponent.DecodeEncode | src/app/page.js:80 | decoding `encodeURIComponent(s)` gives back s |
| Rupiah.GroupsAheadIff | src/app/page.js:26 | the look-ahead `(?=(\d{3})+(?!\d))` holds exactly when the run of digits ahead is a positive multiple of three long |
| Rupiah.SeparatorInDigits | src/app/page.js:26 | in a digit string a `.` goes exactly before each inner position from which a multiple of three digits remains |
| Rupiah.FormatRupiahGroupsThousands | src/app/page.js:25-26 | on a digit string `formatRupiah` equals the reference grouping: the leading one to three digits, then groups of three, each preceded by `.` |
| Rupiah.GroupThousandsDots | src/app/page.js:25-26 | L digits receive exactly (L - 1) / 3 separators |
| Rupiah.GroupThousandsRemoveDots | src/app/page.js:25-26 | deleting the separators from the grouping gives the digits back |
| Rupiah.GroupThousandsCanonical | src/app/page.js:25-26 | counted from the right, every fourth character of the grouping is `.` and the rest are digits |
| Rupiah.FormatRupiahIdempotent | src/app/page.js:25-26 | text that is already grouped is returned unchanged |
| Rupiah.FormatRupiahOfDigits | src/app/page.js:25-26 | for digits: the separator count, the digits back, canonical grouping, and formatting twice equals formatting once |
| Rupiah.GroupFromRemoveDots | src/app/page.js:26 | for any input, deleting `.` from the output of each suffix gives the suffix with its `.` deleted |
| Rupiah.FormatRupiah | src/app/page.js:25-26 | for any input, the output is the input with `.` characters inserted (`DotsInserted`): every input character, an existing `.` included, is kept in order, and only `.` is added; so it is no shorter, and deleting `.` from both gives the same text |
| Rupiah.PriceText | src/app/page.js:422 | the printed price is `Rp`, then the price field with `.` characters inserted (`DotsInserted`) and no other change, then `,00` |
| Rupiah.PriceTextOfCanonical | src/app/page.js:422 | an already grouped price such as 138.000.000 is printed verbatim between `Rp` and `,00` |
| Rupiah.DefaultPriceExamples | src/app/page.js:104 | 138000000 is shown as 138.000.000, and the default price 138.000.000 is left as it is |
| PageText.SpaceBeforeCapitals | src/app/page.js:365 | one extra character (the space) per capital letter; a key starting with a non-capital keeps its first character |
| PageText.CapitalizeFirst | src/app/page.js:366 | the length is kept, and everything after the first character is unchanged |
| PageText.RemoveSpaceBeforeCapitalsInverse | src/app/page.js:365 | for a key without spaces, dropping each space before a capital undoes the transform |
| PageText.KeyLabel | src/app/page.js:364-366 | the label has one extra character per capital letter of the key, and starts with the key's first letter in upper case when it is a lower-case letter |
| PageText.KeyLabelOfCamelCase | src/app/page.js:364-366 | a camel-case key's label starts with that letter in upper case, then the spaced rest, has one extra character per capital, and leads back to the key |
| PageText.KeyLabelExample | src/app/page.js:364-366 | the key `modelBody` is shown as `Model Body` |
| PageText.PdfFilename | src/app/page.js:154-157 | 20 characters more than the recipient: `Surat_Penawaran_`, then the recipient with each whitespace replaced by `_`, then `.pdf`; no whitespace |
| PageText.PdfFilenameDeterminedByRecipient | src/app/page.js:170-173 | two recipients give the same file name exactly when they agree after whitespace replacement |
| PageText.PdfFilenameOfEmptyRecipient | src/app/page.js:154-157 | an empty recipient gives `Surat_Penawaran_.pdf` |
| PageText.ReplaceWhitespaceExample | src/app/page.js:154-157 | `PT Maju` becomes `PT_Maju` |
| PageText.PdfFilenameExample | src/app/page.js:154-157 | recipient `PT Maju` gives `Surat_Penawaran_PT_Maju.pdf` |
| PageText.WhatsAppMessage | src/app/page.js:80 | the extra text and a line break when the extra text is non-empty, then the URL; otherwise only the URL |
| PageText.WhatsAppLink | src/app/page.js:79-81 | the link starts with `https://wa.me/`, the phone and `?text=`, and the encoded query is at least as long as the message |
| PageText.WhatsAppLinkCarriesMessage | src/app/page.js:79-81 | the link starts with `https://wa.me/`, the phone and `?text=`; the query decodes to the message and holds no raw separator |
| PageText.SendGreeting | src/app/page.js:186 | the greeting sent with the link is never empty |
| PageText.AlertText | src/app/page.js:161 | `e.message \|\| fallback`: the alert is one of the two texts; a non-empty message wins; the alert is non-empty whenever the fallback is |
| OfferForm.FieldNamed | src/app/page.js:144-147 | a name selects the top-level field of that name, and only that field |
| OfferForm.SetField | src/app/page.js:144-147 | `{...prev, [field]: value}`: the chosen field holds the value; every other field and the specification are unchanged |
| OfferForm.Lookup | src/app/page.js:139-140 | a key has a value exactly when it is among the keys, and that value is in an entry under that key |
| OfferForm.SetEntry | src/app/page.js:138-141 | the spread keeps the number of entries or adds one |
| OfferForm.Slot | src/app/page.js:138-141 | the place of a new key lies within the entries |
| OfferForm.SlotPlace | src/app/page.js:138-141 | a new key that is not an array index goes last; a new array index goes after every key it does not precede and before the key at its place |
| OfferForm.SetEntryExisting | src/app/page.js:138-141 | setting a key that is present keeps every key in its place |
| OfferForm.SetEntryNew | src/app/page.js:138-141 | setting a new key inserts exactly one entry at its place; a key that is not an array index is appended |
| OfferForm.SetEntryKeepsOrder | src/app/page.js:138-141 | the entries stay in JavaScript's enumeration order: array indices first, ascending |
| OfferForm.NewKeyExamples | src/app/page.js:138-141 | on `modelBody`, `rangka`: a new key `0` is enumerated first, a new key `warna` last |
| OfferForm.DefaultSpecOrder | src/app/page.js:107-127 | the initial specification is in enumeration order: none of its keys is an array index |
| OfferForm.SetEntryLookup | src/app/page.js:138-141 | the key holds the new value; every other key keeps its value |
| OfferForm.SetEntryUnique | src/app/page.js:138-141 | no key appears twice after the update if none did before |
| OfferForm.SpecPathSelectsKey | src/app/page.js:372 | the path `spesifikasi.<key>` passed by a specification input splits back into that key |
| OfferForm.HandleInputChange | src/app/page.js:133-149 | a plain name leaves the specification unchanged; a dotted path leaves every top-level field unchanged |
| OfferForm.InputChangeTopLevel | src/app/page.js:143-148 | a top-level name sets that field to the value and changes nothing else |
| OfferForm.InputChangeSpec | src/app/page.js:134-142 | a specification path sets its entry and keeps every other entry and field; an existing key keeps its place; a new key is inserted at its place in enumeration order, last unless it is an array index; uniqueness and enumeration order are preserved |
| OfferForm.DefaultSpecUnique | src/app/page.js:107-127 | no key occurs twice in the initial specification |
| OfferForm.DefaultRecord | src/app/page.js:98-128 | the initial record has the given date, the price 138.000.000 and the nineteen default specification entries; they are the entries of an object: unique keys, in enumeration order |
| OfferForm.InputChangeKeepsObject | src/app/page.js:133-149 | every update the form makes keeps the `spesifikasi` entries those of an object: unique keys in enumeration order |
| Delivery.Generate | src/app/page.js:29-54 | a missing element fails with `#surat-container tidak ditemukan` and no effect; success iff the element exists, the library is loaded or the import succeeds, and the render succeeds; the library is loaded on demand only when it was not loaded; the render is the last effect of a success and absent from a failure |
| Delivery.UploadResult | src/app/page.js:66-76 | the upload succeeds exactly for an ok response, with its `url`, or the text `undefined` when the body has none; a non-ok response always fails with a non-empty message: the server's non-empty `error` field, else `Gagal upload file`; a rejected fetch or unreadable body fails with its own message |
| Delivery.DownloadEffects | src/app/page.js:151-165 | one to three effects; the last is a download exactly when the element exists, the library is loaded or imported, and the render succeeds, and otherwise an alert; every earlier effect is the load or the render |
| Delivery.DeliverEffects | src/app/page.js:175-187 | delivery begins with the share when the platform can share the file, otherwise with the upload; at most two effects, the second an alert or the WhatsApp open |
| Delivery.SendEffects | src/app/page.js:167-193 | one to four effects; the render is among them exactly when the element exists, the library is loaded or imported, and the render succeeds |
| Delivery.GenerateLoadCount | src/app/page.js:41-44 | the generation loads the library once exactly when the element exists, the library was not loaded and the import succeeds |
| Delivery.SendAfterLoadsNothing | src/app/page.js:175-189 | nothing after the render loads the library |
| Delivery.DownloadKeepsLoadedAtMostOnce | src/app/page.js:151-165 | the download handler keeps the library loaded at most once, and only if it stays loaded |
| Delivery.SendKeepsLoadedAtMostOnce | src/app/page.js:167-193 | the send handler keeps the same invariant |
| Delivery.SuratPenawaranPage.constructor | src/app/page.js:98-131 | the initial record, not busy, library not loaded, no effects; the invariant holds: the library loaded at most once, and the `spesifikasi` entries those of an object |
| Delivery.SuratPenawaranPage.ModuleImportResolved | src/app/page.js:7-12 | the import started at module load sets the library and keeps the invariant |
| Delivery.SuratPenawaranPage.OnInputChange | src/app/page.js:133-149 | the record becomes `HandleInputChange` of the old record, and the invariant is kept: the `spesifikasi` entries stay those of an object |
| Delivery.SuratPenawaranPage.GeneratePdfBlob | src/app/page.js:29-54 | appends the effects of `Generate` and returns its result; the loaded flag becomes `Generate`'s |
| Delivery.SuratPenawaranPage.ShareFileIfSupported | src/app/page.js:85-95 | false and no effect when the platform cannot share the file; otherwise the share with the fixed title and text, then true, or the rejection's error |
| Delivery.SuratPenawaranPage.UploadBlobToVercelBlob | src/app/page.js:66-76 | appends the upload of the blob under the file name and returns `UploadResult` |
| Delivery.SuratPenawaranPage.OpenWhatsAppWithLink | src/app/page.js:79-82 | appends the opening of `WhatsAppLink` for the phone, URL and text |
| Delivery.SuratPenawaranPage.HandleDownloadPdf | src/app/page.js:151-165 | appends `DownloadEffects` for the recipient's file name, leaves `busy` cleared and keeps the invariant |
| Delivery.SuratPenawaranPage.DeliverRendered | src/app/page.js:175-189 | appends `DeliverEffects`: share, or upload then WhatsApp, with a thrown error as one alert |
| Delivery.SuratPenawaranPage.SendGenerated | src/app/page.js:174-189 | after a failed generation one alert; after a render the delivery |
| Delivery.SuratPenawaranPage.HandleSendWhatsApp | src/app/page.js:167-193 | appends `SendEffects`, leaves `busy` cleared on every path and keeps the invariant |
| DeliveryProperties.DownloadCases | src/app/page.js:151-165 | every path of the download handler, effect by effect |
| DeliveryProperties.DownloadOrAlert | src/app/page.js:158-161 | a download happens exactly when the render succeeds, and then of that blob; otherwise the last effect is one non-empty alert |
| DeliveryProperties.GenerateRendered | src/app/page.js:29-54 | a generation that reaches a successful render produces the load (if needed), the render and the blob |
| DeliveryProperties.DeliverCases | src/app/page.js:175-189 | the four delivery paths: shared; share rejected then alert; uploaded then WhatsApp; upload failed then alert |
| DeliveryProperties.SendFailsBeforeDelivery | src/app/page.js:174-189 | a missing element, a failed import or a failed render gives one alert and no delivery |
| DeliveryProperties.SendShape | src/app/page.js:167-193 | a failed generation leaves at most the load and then one non-empty alert; otherwise the generation's effects and then the delivery |
| DeliveryProperties.SendRendersFirst | src/app/page.js:174-178 | every share, upload or WhatsApp open comes after the render |
| DeliveryProperties.DeliverRoutes | src/app/page.js:178-187 | a share excludes the upload and WhatsApp and vice versa; WhatsApp opens exactly after a successful upload, right after it |
| DeliveryProperties.ShareExcludesUpload | src/app/page.js:178-182 | when the platform can share the file, nothing is uploaded and WhatsApp is not opened |
| DeliveryProperties.UploadExcludesShare | src/app/page.js:184-187 | when it cannot, no share is attempted |
| DeliveryProperties.WhatsAppOpenedIff | src/app/page.js:178-187 | WhatsApp opens exactly when the render succeeded, the platform cannot share and the upload returned a URL |
| DeliveryProperties.WhatsAppOpenedLast | src/app/page.js:185-187 | the WhatsApp open is the last effect, right after the upload, with the link for the returned URL and the greeting |
| DeliveryProperties.SendAlertIsLast | src/app/page.js:188-189 | at most one alert, as the last effect, never with an empty text |
| DeliveryProperties.UploadFailureAlert | src/app/page.js:70-73 | a failed upload alerts the server's `error` field, else `Gagal upload file`; a transport error alerts its message, else `Gagal mengirim via WhatsApp` |
| DeliveryProperties.DiskFullScenario | src/app/page.js:70-73 | a 500 with `{error: "disk full"}` shows `disk full`, and WhatsApp is not opened |
| DeliveryProperties.WaLinkStart | src/app/page.js:15 | the link starts with `https://wa.me/6281234567890?text=` |
| DeliveryProperties.UploadedLinkScenario | src/app/page.js:185-187 | after an upload, WhatsApp opens the target number's link, whose query decodes to the greeting, a line break and the URL |
| DeliveryProperties.SendSeesUploadResult | src/app/page.js:185 | the send flow depends on the upload only through what `uploadBlobToVercelBlob` returns or throws |
| DeliveryProperties.MissingUrlScenario | src/app/page.js:74-75 | an ok reply without a `url` still opens WhatsApp, and the query decodes to the greeting, a line break and the word `undefined` |
| DeliveryProperties.CancelledShareAlerts | src/app/page.js:178-189 | a rejected share, a cancelled one included, is alerted, and nothing is uploaded |
| DeliveryProperties.SendCarriesFilename | src/app/page.js:170-185 | on every outcome of the generation, share and upload, each file the send flow shares or uploads is named `PdfFilename` of the recipient |
| DeliveryProperties.HandlersAgreeOnFilename | src/app/page.js:154-159 | for one recipient, every file the download flow saves has the same name as every file the send flow shares or uploads, whatever the outcomes of the two flows |
| UploadRoute.GivenName | src/app/api/uploud/route.js:16 | a name exactly for a file part whose trimmed name is non-empty; that name is the trimmed one, no longer than the original, without whitespace at either end |
| UploadRoute.FallbackName | src/app/api/uploud/route.js:17 | 21 to 26 characters, starting with `surat-penawaran-` and ending with `.pdf` |
| UploadRoute.StoredName | src/app/api/uploud/route.js:15-17 | the stored name is never empty |
| UploadRoute.ErrorText | src/app/api/uploud/route.js:25 | the error's message when non-empty, else `Upload failed` |
| UploadRoute.Post | src/app/api/uploud/route.js:6-29 | status 400, 200 or 500; 400 exactly when the form has no truthy `file`, with `No file provided`; the store is called exactly when a file is present, under the stored name with public access; 200 exactly when it resolves, with its URL; every failure a 500 with the error text |
| UploadRoute.FallbackNameShape | src/app/api/uploud/route.js:17 | `surat-penawaran-`, one to six digits, `.pdf`; 26 characters exactly when the timestamp has six digits or more |
| UploadRoute.FallbackNameDigits | src/app/api/uploud/route.js:17 | the digits of the fallback name denote the timestamp mod 10^6 |
| UploadRoute.StoredNameCases | src/app/api/uploud/route.js:15-17 | the trimmed file name when non-empty, the fallback otherwise, for a text field in particular |
| UploadRoute.PageNameIsKept | src/app/api/uploud/route.js:15-17 | a file named by the page is stored under exactly that name |
| UploadRoute.NoFileScenario | src/app/api/uploud/route.js:11-13 | a missing `file` field or an empty one gives 400 with `No file provided` and no store call |
| UploadRoute.StoreFailureScenario | src/app/api/uploud/route.js:23-28 | a store error `disk full` gives 500 with that text; an empty message gives `Upload failed` |

## Left out

- The JSX markup, styling, the edit/preview toggle and the icons (`src/app/page.js:195-476`): presentation only.
- The PDF's content and options, html2pdf, the DOM, `Blob`, `File` and `URL.createObjectURL`. The render is an outcome parameter, and the PDF is an opaque byte sequence.
- `getFormattedDate` (`toLocaleDateString("id-ID")`) reads the clock and the locale data. Its result is the `tanggal` parameter of the initial record.
- An ok upload reply whose `url` is present but not a string (a number, `null`) is not modelled: the `url` field is a string or missing. The route always answers 200 with a string URL.
- A non-ok upload reply whose `error` field is present but not a string is not modelled: the field is a string or missing. An object there would give the message `[object Object]`, and a falsy non-string such as `0` would take the fallback text. The route only ever sends a string `error`.
- `Date.now()` is the `now` parameter of the route. `put` of the blob store is the `PutOutcome` parameter, and its reply is cut down to its URL.
- Asynchrony and concurrency. Each handler runs to completion as one method. Both buttons are disabled while `busy`, so two flows never overlap.
- Delivery.SuratPenawaranPage.HandleDownloadPdf: requires `!busy`, because the page disables the buttons while busy.
- Delivery.SuratPenawaranPage.HandleSendWhatsApp: requires `!busy` for the same reason.
- The two branches `outputPdf("blob")` and `output("blob")` (`src/app/page.js:49-53`) are one render outcome: both yield the blob or throw.
- A thrown value without a `message` is modelled as an error with the empty message. It therefore takes the fallback text, as `e.message || …` does.
- OfferForm.HandleInputChange: requires one of the field arguments the form passes: a top-level field name, or a path `spesifikasi.<key>`. Any other string would, in JavaScript, add a property or spread a string into an object.
- JsText.ToUpperAscii: upper-cases ASCII letters only. The specification keys are ASCII identifiers.
- JsText.SliceLast: requires n > 0. In JavaScript `slice(-0)` is the whole string; the route only uses `slice(-6)`.
- JsText.DecimalString: covers non-negative integers only. No exponent notation (used from 10^21 on), no negative or fractional values: `Date.now()` is a non-negative integer.
- `formatRupiah` takes `angka.toString()` as a string input. It is proved for any string, and specially for digit strings.
- UriComponent.EncodeUriComponent: the `URIError` it throws on a lone surrogate (`src/app/page.js:80`), which the send handler would alert (`src/app/page.js:188-189`), is not modelled. A Dafny `char` is a Unicode scalar value, so a lone surrogate cannot be represented.
- `\s` is the ECMAScript WhiteSpace and LineTerminator set. Every member of that set is a single UTF-16 unit, so a character-by-character model is exact.
- The `runtime = "edge"` export and `NextResponse` serialisation: the response is the status and the JSON body as a datatype.
