/**
 * The generate-and-deliver flows of src/app/page.js: `generatePdfBlob`,
 * `downloadBlob`, `shareFileIfSupported`, `uploadBlobToVercelBlob`,
 * `openWhatsAppWithLink`, and the two button handlers `handleDownloadPdf` and
 * `handleSendWhatsApp`. Each step that reaches the browser, the PDF library
 * or the network is an outcome passed in; each effect a step has on the user
 * is appended to a trace.
 */
module Delivery {
  import opened Wrappers
  import opened PageText
  import opened OfferForm
  import UriComponent

  datatype Blob = Blob(bytes: seq<UriComponent.Byte>)

  /** What the page does that the user or another system can observe. */
  datatype Effect =
    | LoadPdfLibrary                                           // `import("html2pdf.js")` resolved on demand
    | RenderPdf                                                // html2pdf produced the PDF blob
    | Download(blob: Blob, filename: string)                   // anchor with an object URL clicked
    | Share(blob: Blob, filename: string, title: string, text: string)  // `navigator.share` invoked
    | Upload(blob: Blob, filename: string)                     // POST of the file to the upload route
    | OpenWindow(url: string)                                  // `window.open(url, "_blank")`
    | Alert(message: string)                                   // `alert(message)`

  predicate IsDelivery(e: Effect) {
    e.Download? || e.Share? || e.Upload? || e.OpenWindow?
  }

  /** The effects that hand the PDF file on under a file name. */
  predicate CarriesFile(e: Effect) {
    e.Download? || e.Share? || e.Upload?
  }

  /** Outcome of `await import("html2pdf.js")`. */
  datatype ImportOutcome = Imported | ImportFailed(message: string)

  /** Outcome of `worker.outputPdf("blob")` (or `output("blob")`). */
  datatype RenderOutcome = Rendered(blob: Blob) | RenderFailed(message: string)

  /** Outcome of `await navigator.share(...)`; a user who cancels the share
      sheet makes it reject as well. */
  datatype ShareOutcome = ShareResolved | ShareRejected(message: string)

  /** Outcome of the upload request: the fetch rejected; a non-ok response
      whose JSON body has an `error` field, or none (including an unreadable
      body); an ok response whose `url` field is read, or is missing; an ok
      response whose body is not JSON. */
  datatype UploadOutcome =
    | FetchRejected(message: string)
    | HttpError(errorField: Option<string>)
    | HttpOk(url: Option<string>)
    | BodyUnreadable(message: string)

  const ContainerId := "surat-container"
  const ShareTitle := "Surat Penawaran"
  const ShareText := "Halo, berikut surat penawarannya."
  const UploadFallback := "Gagal upload file"
  const DownloadFallback := "Gagal membuat PDF"
  const SendFallback := "Gagal mengirim via WhatsApp"
  /** What a missing `url` becomes once it is written into the message text. */
  const UndefinedText := "undefined"

  function MissingContainerMessage(): string {
    "#" + ContainerId + " tidak ditemukan"
  }

  // ---- Specification of each step ----

  /** What `generatePdfBlob` does: its effects, its result, and whether the
      library is loaded afterwards. */
  datatype Generation = Generation(effects: seq<Effect>, result: Result<Blob>, loaded: bool)

  function Generate(found: bool, loaded: bool, imp: ImportOutcome, render: RenderOutcome): (g: Generation)
    ensures !found ==> g.effects == [] && g.result == Failure(MissingContainerMessage()) && g.loaded == loaded
    ensures g.result.Success? <==> found && (loaded || imp.Imported?) && render.Rendered?
    ensures g.result.Success? ==>
      g.result.value == render.blob && g.effects != [] && g.effects[|g.effects| - 1] == RenderPdf
    ensures g.result.Failure? ==> RenderPdf !in g.effects
    ensures g.loaded == (loaded || (found && imp.Imported?))
    ensures (LoadPdfLibrary in g.effects) == (found && !loaded && imp.Imported?)
    ensures forall e :: e in g.effects ==> e == LoadPdfLibrary || e == RenderPdf
    ensures |g.effects| <= 2
  {
    if !found then Generation([], Failure(MissingContainerMessage()), loaded)
    else if !loaded && imp.ImportFailed? then Generation([], Failure(imp.message), loaded)
    else
      var load := if loaded then [] else [LoadPdfLibrary];
      match render
      case RenderFailed(m) => Generation(load, Failure(m), true)
      case Rendered(b) => Generation(load + [RenderPdf], Success(b), true)
  }

  /** The error `uploadBlobToVercelBlob` throws, or the URL it returns: for a
      response that is not ok, the server's `error` field when it is a
      non-empty string, else the fixed fallback; for an ok response without
      a `url`, `undefined`, which the message text spells out. */
  function UploadResult(outcome: UploadOutcome): (r: Result<string>)
    ensures r.Success? <==> outcome.HttpOk?
    ensures outcome.HttpOk? && outcome.url.Some? ==> r.value == outcome.url.value
    ensures outcome.HttpOk? && outcome.url.None? ==> r.value == UndefinedText
    ensures outcome.HttpError? && outcome.errorField.Some? && outcome.errorField.value != [] ==>
      r == Failure(outcome.errorField.value)
    ensures outcome.HttpError? && (outcome.errorField.None? || outcome.errorField.value == []) ==>
      r == Failure(UploadFallback)
    ensures (outcome.FetchRejected? || outcome.BodyUnreadable?) ==> r == Failure(outcome.message)
    ensures outcome.HttpError? ==> r.Failure? && r.message != []
  {
    match outcome
    case FetchRejected(m) => Failure(m)
    case HttpError(field) =>
      if field.Some? && field.value != [] then Failure(field.value) else Failure(UploadFallback)
    case HttpOk(url) => Success(if url.Some? then url.value else UndefinedText)
    case BodyUnreadable(m) => Failure(m)
  }

  /** The effects of one `handleDownloadPdf`: the ones of the generation,
      then the download of the blob, or one alert. */
  function DownloadEffects(filename: string, found: bool, loaded: bool, imp: ImportOutcome,
                           render: RenderOutcome): (r: seq<Effect>)
    ensures 1 <= |r| <= 3
    ensures r[|r| - 1].Download? <==> found && (loaded || imp.Imported?) && render.Rendered?
    ensures !r[|r| - 1].Download? ==> r[|r| - 1].Alert?
    ensures forall i :: 0 <= i < |r| - 1 ==> r[i] == LoadPdfLibrary || r[i] == RenderPdf
  {
    var g := Generate(found, loaded, imp, render);
    g.effects + if g.result.Success? then [Download(g.result.value, filename)]
                else [Alert(AlertText(g.result.message, DownloadFallback))]
  }

  /** The effects of the part of `handleSendWhatsApp` after a successful render. */
  function DeliverEffects(blob: Blob, kepada: string, perihal: string, canShare: bool,
                          share: ShareOutcome, upload: UploadOutcome): (r: seq<Effect>)
    ensures |r| >= 1 && IsDelivery(r[0])
    ensures canShare ==> r[0] == Share(blob, PdfFilename(kepada), ShareTitle, ShareText)
    ensures !canShare ==> r[0] == Upload(blob, PdfFilename(kepada))
    ensures |r| <= 2 && (|r| == 2 ==> r[1].Alert? || r[1].OpenWindow?)
  {
    var filename := PdfFilename(kepada);
    if canShare then
      [Share(blob, filename, ShareTitle, ShareText)]
      + match share
        case ShareResolved => []
        case ShareRejected(m) => [Alert(AlertText(m, SendFallback))]
    else
      [Upload(blob, filename)]
      + match UploadResult(upload)
        case Success(url) => [OpenWindow(WhatsAppLink(WaTargetNumber, url, SendGreeting(kepada, perihal)))]
        case Failure(m) => [Alert(AlertText(m, SendFallback))]
  }

  /** The effects of `handleSendWhatsApp` once the generation has ended with
      result `r`: delivery of the blob, or one alert. */
  function SendAfter(r: Result<Blob>, kepada: string, perihal: string, canShare: bool,
                     share: ShareOutcome, upload: UploadOutcome): seq<Effect>
  {
    if r.Success? then DeliverEffects(r.value, kepada, perihal, canShare, share, upload)
    else [Alert(AlertText(r.message, SendFallback))]
  }

  /** The effects of one `handleSendWhatsApp`. */
  function SendEffects(kepada: string, perihal: string, found: bool, loaded: bool, imp: ImportOutcome,
                       render: RenderOutcome, canShare: bool, share: ShareOutcome,
                       upload: UploadOutcome): (r: seq<Effect>)
    ensures 1 <= |r| <= 4
    ensures (RenderPdf in r) <==> found && (loaded || imp.Imported?) && render.Rendered?
  {
    var g := Generate(found, loaded, imp, render);
    g.effects + SendAfter(g.result, kepada, perihal, canShare, share, upload)
  }

  /** How many times the PDF library was loaded on demand. */
  function LoadCount(effects: seq<Effect>): nat {
    if effects == [] then 0
    else (if effects[0] == LoadPdfLibrary then 1 else 0) + LoadCount(effects[1..])
  }

  /** The page's invariant over its trace: the on-demand load happened at
      most once, and only if the library is loaded now. */
  ghost predicate LoadedAtMostOnce(effects: seq<Effect>, loaded: bool) {
    LoadCount(effects) <= 1 && (LoadCount(effects) == 1 ==> loaded)
  }

  lemma {:induction false} LoadCountConcat(a: seq<Effect>, b: seq<Effect>)
    ensures LoadCount(a + b) == LoadCount(a) + LoadCount(b)
  {
    if a == [] {
      assert a + b == b;
    } else {
      assert (a + b)[0] == a[0];
      assert (a + b)[1..] == a[1..] + b;
      LoadCountConcat(a[1..], b);
    }
  }

  lemma {:induction false} LoadCountAbsent(s: seq<Effect>)
    requires LoadPdfLibrary !in s
    ensures LoadCount(s) == 0
  {
    if s != [] {
      assert s == [s[0]] + s[1..];
      LoadCountAbsent(s[1..]);
    }
  }

  /** The generation loads the library exactly when it was not loaded, the
      container exists and the import succeeds. */
  lemma GenerateLoadCount(found: bool, loaded: bool, imp: ImportOutcome, render: RenderOutcome)
    ensures LoadCount(Generate(found, loaded, imp, render).effects) ==
      if found && !loaded && imp.Imported? then 1 else 0
  {
    var e := Generate(found, loaded, imp, render).effects;
    if found && !loaded && imp.Imported? {
      assert e[0] == LoadPdfLibrary && LoadPdfLibrary !in e[1..];
      LoadCountAbsent(e[1..]);
    } else {
      LoadCountAbsent(e);
    }
  }

  /** `handleDownloadPdf` keeps the invariant. */
  lemma DownloadKeepsLoadedAtMostOnce(effects: seq<Effect>, loaded: bool, filename: string, found: bool,
                                      imp: ImportOutcome, render: RenderOutcome)
    requires LoadedAtMostOnce(effects, loaded)
    ensures LoadedAtMostOnce(effects + DownloadEffects(filename, found, loaded, imp, render),
                             Generate(found, loaded, imp, render).loaded)
  {
    var g := Generate(found, loaded, imp, render);
    var tail := DownloadEffects(filename, found, loaded, imp, render)[|g.effects|..];
    assert DownloadEffects(filename, found, loaded, imp, render) == g.effects + tail;
    assert LoadCount(tail[1..]) == 0;
    LoadCountConcat(g.effects, tail);
    LoadCountConcat(effects, g.effects + tail);
    GenerateLoadCount(found, loaded, imp, render);
  }

  /** Delivery never loads the library. */
  lemma SendAfterLoadsNothing(r: Result<Blob>, kepada: string, perihal: string, canShare: bool,
                              share: ShareOutcome, upload: UploadOutcome)
    ensures LoadCount(SendAfter(r, kepada, perihal, canShare, share, upload)) == 0
  {
    LoadCountAbsent(SendAfter(r, kepada, perihal, canShare, share, upload));
  }

  /** `handleSendWhatsApp` keeps the invariant. */
  lemma SendKeepsLoadedAtMostOnce(effects: seq<Effect>, loaded: bool, kepada: string, perihal: string,
                                  found: bool, imp: ImportOutcome, render: RenderOutcome,
                                  canShare: bool, share: ShareOutcome, upload: UploadOutcome)
    requires LoadedAtMostOnce(effects, loaded)
    ensures LoadedAtMostOnce(effects + SendEffects(kepada, perihal, found, loaded, imp, render, canShare, share, upload),
                             Generate(found, loaded, imp, render).loaded)
  {
    var g := Generate(found, loaded, imp, render);
    var tail := SendAfter(g.result, kepada, perihal, canShare, share, upload);
    SendAfterLoadsNothing(g.result, kepada, perihal, canShare, share, upload);
    LoadCountConcat(g.effects, tail);
    LoadCountConcat(effects, g.effects + tail);
    GenerateLoadCount(found, loaded, imp, render);
  }

  /** The two invariant lemmas above, stated for the trace and the flag they produce. */
  lemma LoadedAfterDownload(effects: seq<Effect>, loaded: bool, filename: string, found: bool,
                            imp: ImportOutcome, render: RenderOutcome, after: seq<Effect>, nowLoaded: bool)
    requires LoadedAtMostOnce(effects, loaded)
    requires after == effects + DownloadEffects(filename, found, loaded, imp, render)
    requires nowLoaded == Generate(found, loaded, imp, render).loaded
    ensures LoadedAtMostOnce(after, nowLoaded)
  {
    DownloadKeepsLoadedAtMostOnce(effects, loaded, filename, found, imp, render);
  }

  lemma LoadedAfterSend(effects: seq<Effect>, loaded: bool, kepada: string, perihal: string,
                        found: bool, imp: ImportOutcome, render: RenderOutcome,
                        canShare: bool, share: ShareOutcome, upload: UploadOutcome,
                        after: seq<Effect>, nowLoaded: bool)
    requires LoadedAtMostOnce(effects, loaded)
    requires after == effects + SendEffects(kepada, perihal, found, loaded, imp, render, canShare, share, upload)
    requires nowLoaded == Generate(found, loaded, imp, render).loaded
    ensures LoadedAtMostOnce(after, nowLoaded)
  {
    SendKeepsLoadedAtMostOnce(effects, loaded, kepada, perihal, found, imp, render, canShare, share, upload);
  }

  lemma AppendAssoc(a: seq<Effect>, b: seq<Effect>, c: seq<Effect>)
    ensures (a + b) + c == a + (b + c)
  {
  }

  lemma DownloadEffectsParts(filename: string, found: bool, loaded: bool, imp: ImportOutcome, render: RenderOutcome)
    ensures var g := Generate(found, loaded, imp, render);
      DownloadEffects(filename, found, loaded, imp, render)
        == g.effects + [if g.result.Success? then Download(g.result.value, filename)
                        else Alert(AlertText(g.result.message, DownloadFallback))]
  {
  }

  lemma AppendTwo(a: seq<Effect>, x: Effect, y: Effect)
    ensures a + [x] + [y] == a + [x, y]
  {
  }

  lemma DeliverRejected(blob: Blob, kepada: string, perihal: string, share: ShareOutcome, upload: UploadOutcome)
    requires share.ShareRejected?
    ensures DeliverEffects(blob, kepada, perihal, true, share, upload)
      == [Share(blob, PdfFilename(kepada), ShareTitle, ShareText), Alert(AlertText(share.message, SendFallback))]
  {
  }

  lemma DeliverUploadFailed(blob: Blob, kepada: string, perihal: string, share: ShareOutcome, upload: UploadOutcome)
    requires UploadResult(upload).Failure?
    ensures DeliverEffects(blob, kepada, perihal, false, share, upload)
      == [Upload(blob, PdfFilename(kepada)), Alert(AlertText(UploadResult(upload).message, SendFallback))]
  {
  }

  lemma DeliverUploaded(blob: Blob, kepada: string, perihal: string, share: ShareOutcome, upload: UploadOutcome)
    requires UploadResult(upload).Success?
    ensures DeliverEffects(blob, kepada, perihal, false, share, upload)
      == [Upload(blob, PdfFilename(kepada)),
          OpenWindow(WhatsAppLink(WaTargetNumber, UploadResult(upload).value, SendGreeting(kepada, perihal)))]
  {
  }

  // ---- The page ----

  /** The component's state: the form record, the `busy` flag, the module
      variable `html2pdf` (loaded or not), and the effects so far. */
  class SuratPenawaranPage {
    var form: OfferRecord
    var busy: bool
    var html2pdfLoaded: bool
    var effects: seq<Effect>

    /** The PDF library is loaded on demand at most once, and stays loaded;
        the `spesifikasi` entries are those of an object. */
    ghost predicate Valid()
      reads this
    {
      LoadedAtMostOnce(effects, html2pdfLoaded) && ObjectEntries(form.spesifikasi)
    }

    constructor (tanggal: string)
      ensures Valid()
      ensures form == DefaultRecord(tanggal) && !busy && !html2pdfLoaded && effects == []
    {
      form := DefaultRecord(tanggal);
      busy := false;
      html2pdfLoaded := false;
      effects := [];
    }

    /** The `import("html2pdf.js")` started when the module loads resolves
        (src/app/page.js:8-11). */
    method ModuleImportResolved()
      requires Valid()
      modifies this`html2pdfLoaded
      ensures Valid() && html2pdfLoaded
    {
      html2pdfLoaded := true;
    }

    /** `handleInputChange` with the state update applied. */
    method OnInputChange(field: string, value: string)
      requires Valid() && IsFormField(field)
      modifies this`form
      ensures Valid()
      ensures form == HandleInputChange(old(form), field, value)
    {
      InputChangeKeepsObject(form, field, value);
      form := HandleInputChange(form, field, value);
    }

    method Emit(e: Effect)
      modifies this`effects
      ensures effects == old(effects) + [e]
    {
      effects := effects + [e];
    }

    /** `generatePdfBlob("surat-container", ...)`: the element check first,
        then the on-demand library load, then the render. */
    method GeneratePdfBlob(found: bool, imp: ImportOutcome, render: RenderOutcome) returns (r: Result<Blob>)
      modifies this`html2pdfLoaded, this`effects
      ensures var g := Generate(found, old(html2pdfLoaded), imp, render);
        effects == old(effects) + g.effects && r == g.result && html2pdfLoaded == g.loaded
    {
      if !found {
        return Failure(MissingContainerMessage());
      }
      if !html2pdfLoaded {
        if imp.ImportFailed? {
          return Failure(imp.message);
        }
        html2pdfLoaded := true;
        Emit(LoadPdfLibrary);
      }
      if render.RenderFailed? {
        r := Failure(render.message);
      } else {
        Emit(RenderPdf);
        r := Success(render.blob);
      }
    }

    /** `shareFileIfSupported(file)`: true after a completed share, false when
        the platform cannot share the file; a rejected share is an error. */
    method ShareFileIfSupported(blob: Blob, filename: string, canShare: bool, share: ShareOutcome)
      returns (r: Result<bool>)
      modifies this`effects
      ensures !canShare ==> effects == old(effects) && r == Success(false)
      ensures canShare ==> effects == old(effects) + [Share(blob, filename, ShareTitle, ShareText)]
      ensures canShare && share.ShareResolved? ==> r == Success(true)
      ensures canShare && share.ShareRejected? ==> r == Failure(share.message)
    {
      if !canShare {
        return Success(false);
      }
      Emit(Share(blob, filename, ShareTitle, ShareText));
      if share.ShareResolved? {
        r := Success(true);
      } else {
        r := Failure(share.message);
      }
    }

    /** `uploadBlobToVercelBlob(blob, filename)`. */
    method UploadBlobToVercelBlob(blob: Blob, filename: string, outcome: UploadOutcome)
      returns (r: Result<string>)
      modifies this`effects
      ensures effects == old(effects) + [Upload(blob, filename)]
      ensures r == UploadResult(outcome)
    {
      Emit(Upload(blob, filename));
      r := UploadResult(outcome);
    }

    /** `openWhatsAppWithLink(phone, url, extraText)`. */
    method OpenWhatsAppWithLink(phone: string, url: string, extraText: string)
      modifies this`effects
      ensures effects == old(effects) + [OpenWindow(WhatsAppLink(phone, url, extraText))]
    {
      Emit(OpenWindow(WhatsAppLink(phone, url, extraText)));
    }

    /** `handleDownloadPdf`. Callers cannot reach it while busy: the buttons
        are disabled then. */
    method HandleDownloadPdf(found: bool, imp: ImportOutcome, render: RenderOutcome)
      requires Valid() && !busy
      modifies this`busy, this`html2pdfLoaded, this`effects
      ensures Valid() && !busy
      ensures effects == old(effects)
        + DownloadEffects(PdfFilename(form.kepada), found, old(html2pdfLoaded), imp, render)
      ensures html2pdfLoaded == Generate(found, old(html2pdfLoaded), imp, render).loaded
    {
      busy := true;
      var filename := PdfFilename(form.kepada);
      var r := GeneratePdfBlob(found, imp, render);
      var last := if r.Success? then Download(r.value, filename)
                  else Alert(AlertText(r.message, DownloadFallback));
      Emit(last);
      DownloadEffectsParts(filename, found, old(html2pdfLoaded), imp, render);
      AppendAssoc(old(effects), Generate(found, old(html2pdfLoaded), imp, render).effects, [last]);
      assert effects == old(effects) + DownloadEffects(filename, found, old(html2pdfLoaded), imp, render);
      LoadedAfterDownload(old(effects), old(html2pdfLoaded), filename, found, imp, render, effects, html2pdfLoaded);
      busy := false;
      assert form == old(form);
    }

    /** The part of `handleSendWhatsApp` after the render: native share when
        the platform can share the file, otherwise upload and open WhatsApp
        with the link; a thrown error becomes one alert. */
    method DeliverRendered(blob: Blob, canShare: bool, share: ShareOutcome, upload: UploadOutcome)
      modifies this`effects
      ensures effects == old(effects) + DeliverEffects(blob, form.kepada, form.perihal, canShare, share, upload)
    {
      var filename := PdfFilename(form.kepada);
      ghost var before := effects;
      var shared := ShareFileIfSupported(blob, filename, canShare, share);
      if shared.Failure? {
        var alert := Alert(AlertText(shared.message, SendFallback));
        Emit(alert);
        AppendTwo(before, Share(blob, filename, ShareTitle, ShareText), alert);
        DeliverRejected(blob, form.kepada, form.perihal, share, upload);
        return;
      }
      if shared.value {
        return;
      }
      var url := UploadBlobToVercelBlob(blob, filename, upload);
      if url.Failure? {
        var alert := Alert(AlertText(url.message, SendFallback));
        Emit(alert);
        AppendTwo(before, Upload(blob, filename), alert);
        DeliverUploadFailed(blob, form.kepada, form.perihal, share, upload);
        return;
      }
      var extraText := SendGreeting(form.kepada, form.perihal);
      OpenWhatsAppWithLink(WaTargetNumber, url.value, extraText);
      var window := OpenWindow(WhatsAppLink(WaTargetNumber, url.value, extraText));
      AppendTwo(before, Upload(blob, filename), window);
      DeliverUploaded(blob, form.kepada, form.perihal, share, upload);
    }

    /** What `handleSendWhatsApp` does once the generation has ended with `r`. */
    method SendGenerated(r: Result<Blob>, canShare: bool, share: ShareOutcome, upload: UploadOutcome)
      modifies this`effects
      ensures effects == old(effects) + SendAfter(r, form.kepada, form.perihal, canShare, share, upload)
    {
      if r.Success? {
        DeliverRendered(r.value, canShare, share, upload);
      } else {
        Emit(Alert(AlertText(r.message, SendFallback)));
      }
    }

    /** `handleSendWhatsApp`. Callers cannot reach it while busy: the buttons
        are disabled then. The early `setBusy(false)` after a completed share
        and the one in `finally` both leave the flag cleared. */
    method HandleSendWhatsApp(found: bool, imp: ImportOutcome, render: RenderOutcome,
                              canShare: bool, share: ShareOutcome, upload: UploadOutcome)
      requires Valid() && !busy
      modifies this`busy, this`html2pdfLoaded, this`effects
      ensures Valid() && !busy
      ensures effects == old(effects)
        + SendEffects(form.kepada, form.perihal, found, old(html2pdfLoaded), imp, render, canShare, share, upload)
      ensures html2pdfLoaded == Generate(found, old(html2pdfLoaded), imp, render).loaded
    {
      busy := true;
      ghost var kepada, perihal := form.kepada, form.perihal;
      ghost var g := Generate(found, old(html2pdfLoaded), imp, render);
      var r := GeneratePdfBlob(found, imp, render);
      assert form.kepada == kepada && form.perihal == perihal;
      SendGenerated(r, canShare, share, upload);
      assert form.kepada == kepada && form.perihal == perihal;
      AppendAssoc(old(effects), g.effects, SendAfter(r, kepada, perihal, canShare, share, upload));
      LoadedAfterSend(old(effects), old(html2pdfLoaded), kepada, perihal,
                      found, imp, render, canShare, share, upload, effects, html2pdfLoaded);
      busy := false;
      assert form == old(form);
    }
  }
}
