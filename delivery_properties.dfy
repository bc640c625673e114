/**
 * What the two button handlers of src/app/page.js promise, stated over the
 * effect traces `DownloadEffects` and `SendEffects` that the handler methods
 * of `Delivery.SuratPenawaranPage` are proved to append.
 */
module DeliveryProperties {
  import opened Wrappers
  import opened PageText
  import opened Delivery

  /** The effects of the generation when it succeeds: the on-demand load when
      the library was not loaded yet, then the render. */
  function Rendering(loaded: bool): seq<Effect> {
    (if loaded then [] else [LoadPdfLibrary]) + [RenderPdf]
  }

  /** Positions in a trace that starts with the generation's effects: the
      load and the render come first, then the delivery, element by element. */
  lemma AfterRendering(loaded: bool, d: seq<Effect>)
    ensures var e := Rendering(loaded) + d;
      var k := |Rendering(loaded)|;
      && 1 <= k <= 2 && |e| == k + |d| && e[k - 1] == RenderPdf
      && (forall i :: 0 <= i < k ==> e[i] == LoadPdfLibrary || e[i] == RenderPdf)
      && (forall i :: k <= i < |e| ==> e[i] == d[i - k])
  {
  }

  /** The generation gets as far as the render: the container exists and the
      library is loaded or can be imported. */
  predicate ReachesRender(found: bool, loaded: bool, imp: ImportOutcome) {
    found && (loaded || imp.Imported?)
  }

  // ---- handleDownloadPdf ----

  /** Every path of `handleDownloadPdf`: a missing container or a failed import
      is one alert and nothing else; a failed render is an alert after the
      load; a successful render is followed by the download of that blob
      under the computed name. */
  lemma DownloadCases(filename: string, found: bool, loaded: bool, imp: ImportOutcome, render: RenderOutcome)
    ensures !found ==>
      DownloadEffects(filename, found, loaded, imp, render) == [Alert(AlertText(MissingContainerMessage(), DownloadFallback))]
    ensures found && !loaded && imp.ImportFailed? ==>
      DownloadEffects(filename, found, loaded, imp, render) == [Alert(AlertText(imp.message, DownloadFallback))]
    ensures ReachesRender(found, loaded, imp) && render.RenderFailed? ==>
      DownloadEffects(filename, found, loaded, imp, render)
        == (if loaded then [] else [LoadPdfLibrary]) + [Alert(AlertText(render.message, DownloadFallback))]
    ensures ReachesRender(found, loaded, imp) && render.Rendered? ==>
      DownloadEffects(filename, found, loaded, imp, render) == Rendering(loaded) + [Download(render.blob, filename)]
  {
  }

  /** A download happens exactly when the render succeeds; otherwise the one
      alert is the last effect, and its text is the error's message or, when
      that is empty, "Gagal membuat PDF". */
  lemma {:induction false} DownloadOrAlert(filename: string, found: bool, loaded: bool, imp: ImportOutcome,
                                           render: RenderOutcome)
    ensures var e := DownloadEffects(filename, found, loaded, imp, render);
      && e != []
      && ((exists i :: 0 <= i < |e| && e[i].Download?) <==> ReachesRender(found, loaded, imp) && render.Rendered?)
      && (forall i :: 0 <= i < |e| && e[i].Alert? ==> i == |e| - 1)
      && (forall i :: 0 <= i < |e| && IsDelivery(e[i]) ==> e[i] == Download(render.blob, filename))
      && (!(ReachesRender(found, loaded, imp) && render.Rendered?) ==>
            e[|e| - 1].Alert? && e[|e| - 1].message != [])
  {
    var e := DownloadEffects(filename, found, loaded, imp, render);
    DownloadCases(filename, found, loaded, imp, render);
    if ReachesRender(found, loaded, imp) && render.Rendered? {
      assert e[|e| - 1].Download?;
    }
  }

  // ---- handleSendWhatsApp ----

  /** The generation when it reaches a successful render. */
  lemma GenerateRendered(found: bool, loaded: bool, imp: ImportOutcome, render: RenderOutcome)
    requires ReachesRender(found, loaded, imp) && render.Rendered?
    ensures Generate(found, loaded, imp, render) == Generation(Rendering(loaded), Success(render.blob), true)
  {
  }

  /** The delivery after a render, case by case. */
  lemma DeliverCases(blob: Blob, kepada: string, perihal: string, canShare: bool,
                     share: ShareOutcome, upload: UploadOutcome)
    ensures canShare && share.ShareResolved? ==>
      DeliverEffects(blob, kepada, perihal, canShare, share, upload)
        == [Share(blob, PdfFilename(kepada), ShareTitle, ShareText)]
    ensures canShare && share.ShareRejected? ==>
      DeliverEffects(blob, kepada, perihal, canShare, share, upload)
        == [Share(blob, PdfFilename(kepada), ShareTitle, ShareText), Alert(AlertText(share.message, SendFallback))]
    ensures !canShare && upload.HttpOk? ==>
      DeliverEffects(blob, kepada, perihal, canShare, share, upload)
        == [Upload(blob, PdfFilename(kepada)),
            OpenWindow(WhatsAppLink(WaTargetNumber, UploadResult(upload).value, SendGreeting(kepada, perihal)))]
    ensures !canShare && !upload.HttpOk? ==>
      DeliverEffects(blob, kepada, perihal, canShare, share, upload)
        == [Upload(blob, PdfFilename(kepada)), Alert(AlertText(UploadResult(upload).message, SendFallback))]
  {
  }

  /** `handleSendWhatsApp` before delivery: a missing container, a failed
      import or a failed render is one alert, after the load if there was one. */
  lemma SendFailsBeforeDelivery(kepada: string, perihal: string, found: bool, loaded: bool, imp: ImportOutcome,
                                render: RenderOutcome, canShare: bool, share: ShareOutcome, upload: UploadOutcome)
    ensures !found ==>
      SendEffects(kepada, perihal, found, loaded, imp, render, canShare, share, upload)
        == [Alert(AlertText(MissingContainerMessage(), SendFallback))]
    ensures found && !loaded && imp.ImportFailed? ==>
      SendEffects(kepada, perihal, found, loaded, imp, render, canShare, share, upload)
        == [Alert(AlertText(imp.message, SendFallback))]
    ensures ReachesRender(found, loaded, imp) && render.RenderFailed? ==>
      SendEffects(kepada, perihal, found, loaded, imp, render, canShare, share, upload)
        == (if loaded then [] else [LoadPdfLibrary]) + [Alert(AlertText(render.message, SendFallback))]
  {
  }

  /** The shape of every `handleSendWhatsApp` trace: when the generation
      fails, the on-demand load at most and then one alert; after a render,
      the generation's effects and then the delivery. */
  lemma SendShape(kepada: string, perihal: string, found: bool, loaded: bool, imp: ImportOutcome,
                  render: RenderOutcome, canShare: bool, share: ShareOutcome, upload: UploadOutcome)
    ensures !ReachesRender(found, loaded, imp) || render.RenderFailed? ==>
      var e := SendEffects(kepada, perihal, found, loaded, imp, render, canShare, share, upload);
      e != [] && e[|e| - 1].Alert? && e[|e| - 1].message != [] && forall i :: 0 <= i < |e| - 1 ==> e[i] == LoadPdfLibrary
    ensures ReachesRender(found, loaded, imp) && render.Rendered? ==>
      SendEffects(kepada, perihal, found, loaded, imp, render, canShare, share, upload)
        == Rendering(loaded) + DeliverEffects(render.blob, kepada, perihal, canShare, share, upload)
  {
    if ReachesRender(found, loaded, imp) && render.Rendered? {
      GenerateRendered(found, loaded, imp, render);
    } else {
      SendFailsBeforeDelivery(kepada, perihal, found, loaded, imp, render, canShare, share, upload);
    }
  }

  /** The render completes before any delivery step: every share, upload or
      WhatsApp open is preceded by the render. */
  lemma {:induction false} SendRendersFirst(kepada: string, perihal: string, found: bool, loaded: bool,
                                            imp: ImportOutcome, render: RenderOutcome, canShare: bool,
                                            share: ShareOutcome, upload: UploadOutcome)
    ensures var e := SendEffects(kepada, perihal, found, loaded, imp, render, canShare, share, upload);
      forall i :: 0 <= i < |e| && IsDelivery(e[i]) ==> RenderPdf in e[..i]
  {
    SendShape(kepada, perihal, found, loaded, imp, render, canShare, share, upload);
    if ReachesRender(found, loaded, imp) && render.Rendered? {
      RenderingFirst(loaded, DeliverEffects(render.blob, kepada, perihal, canShare, share, upload));
    } else {
      var e := SendEffects(kepada, perihal, found, loaded, imp, render, canShare, share, upload);
      forall i | 0 <= i < |e| ensures !IsDelivery(e[i]) {
        assert e[i] == LoadPdfLibrary || e[i].Alert?;
      }
    }
  }

  /** After the generation's effects, every delivery is preceded by the render. */
  lemma RenderingFirst(loaded: bool, d: seq<Effect>)
    ensures var e := Rendering(loaded) + d;
      forall i :: 0 <= i < |e| && IsDelivery(e[i]) ==> RenderPdf in e[..i]
  {
    var e := Rendering(loaded) + d;
    var k := |Rendering(loaded)|;
    AfterRendering(loaded, d);
    forall i | 0 <= i < |e| && IsDelivery(e[i]) ensures RenderPdf in e[..i] {
      assert k <= i;
      assert e[..i][k - 1] == RenderPdf;
    }
  }

  /** The delivery never mixes the two routes: a share excludes the upload and
      the WhatsApp open, an upload excludes the share. */
  lemma DeliverRoutes(blob: Blob, kepada: string, perihal: string, canShare: bool,
                      share: ShareOutcome, upload: UploadOutcome)
    ensures var d := DeliverEffects(blob, kepada, perihal, canShare, share, upload);
      && (canShare ==> forall i :: 0 <= i < |d| ==> !d[i].Upload? && !d[i].OpenWindow?)
      && (!canShare ==> forall i :: 0 <= i < |d| ==> !d[i].Share?)
      && (forall i :: 0 <= i < |d| && d[i].Alert? ==> i == |d| - 1 && d[i].message != [])
      && ((exists i :: 0 <= i < |d| && d[i].OpenWindow?) <==> !canShare && upload.HttpOk?)
      && (forall i :: 0 <= i < |d| && d[i].OpenWindow? ==>
            && i == 1 && d[0] == Upload(blob, PdfFilename(kepada))
            && d[i].url == WhatsAppLink(WaTargetNumber, UploadResult(upload).value, SendGreeting(kepada, perihal)))
  {
    var d := DeliverEffects(blob, kepada, perihal, canShare, share, upload);
    DeliverCases(blob, kepada, perihal, canShare, share, upload);
    if !canShare && upload.HttpOk? {
      assert d[1].OpenWindow?;
    }
  }

  /** When the platform can share the file, the flow never uploads and never
      opens WhatsApp. */
  lemma {:induction false} ShareExcludesUpload(kepada: string, perihal: string, found: bool, loaded: bool,
                                               imp: ImportOutcome, render: RenderOutcome,
                                               share: ShareOutcome, upload: UploadOutcome)
    ensures var e := SendEffects(kepada, perihal, found, loaded, imp, render, true, share, upload);
      forall i :: 0 <= i < |e| ==> !e[i].Upload? && !e[i].OpenWindow?
  {
    var e := SendEffects(kepada, perihal, found, loaded, imp, render, true, share, upload);
    SendShape(kepada, perihal, found, loaded, imp, render, true, share, upload);
    if ReachesRender(found, loaded, imp) && render.Rendered? {
      var d := DeliverEffects(render.blob, kepada, perihal, true, share, upload);
      DeliverRoutes(render.blob, kepada, perihal, true, share, upload);
      AfterRendering(loaded, d);
    }
  }

  /** When the platform cannot share the file, the flow never shares. */
  lemma {:induction false} UploadExcludesShare(kepada: string, perihal: string, found: bool, loaded: bool,
                                               imp: ImportOutcome, render: RenderOutcome,
                                               share: ShareOutcome, upload: UploadOutcome)
    ensures var e := SendEffects(kepada, perihal, found, loaded, imp, render, false, share, upload);
      forall i :: 0 <= i < |e| ==> !e[i].Share?
  {
    var e := SendEffects(kepada, perihal, found, loaded, imp, render, false, share, upload);
    SendShape(kepada, perihal, found, loaded, imp, render, false, share, upload);
    if ReachesRender(found, loaded, imp) && render.Rendered? {
      var d := DeliverEffects(render.blob, kepada, perihal, false, share, upload);
      DeliverRoutes(render.blob, kepada, perihal, false, share, upload);
      AfterRendering(loaded, d);
    }
  }

  /** WhatsApp is opened exactly when the render succeeded, the platform
      cannot share and the upload answered with a URL. */
  lemma {:induction false} WhatsAppOpenedIff(kepada: string, perihal: string, found: bool, loaded: bool,
                                             imp: ImportOutcome, render: RenderOutcome, canShare: bool,
                                             share: ShareOutcome, upload: UploadOutcome)
    ensures var e := SendEffects(kepada, perihal, found, loaded, imp, render, canShare, share, upload);
      (exists i :: 0 <= i < |e| && e[i].OpenWindow?) <==>
        ReachesRender(found, loaded, imp) && render.Rendered? && !canShare && upload.HttpOk?
  {
    var e := SendEffects(kepada, perihal, found, loaded, imp, render, canShare, share, upload);
    SendShape(kepada, perihal, found, loaded, imp, render, canShare, share, upload);
    if ReachesRender(found, loaded, imp) && render.Rendered? {
      var d := DeliverEffects(render.blob, kepada, perihal, canShare, share, upload);
      var k := |Rendering(loaded)|;
      DeliverRoutes(render.blob, kepada, perihal, canShare, share, upload);
      AfterRendering(loaded, d);
      if !canShare && upload.HttpOk? {
        assert e[k + 1] == d[1];
      }
    }
  }

  /** WhatsApp is opened at most once, as the last effect, right after the
      upload, with the link for the URL the upload returned. */
  lemma {:induction false} WhatsAppOpenedLast(kepada: string, perihal: string, found: bool, loaded: bool,
                                              imp: ImportOutcome, render: RenderOutcome, canShare: bool,
                                              share: ShareOutcome, upload: UploadOutcome)
    ensures var e := SendEffects(kepada, perihal, found, loaded, imp, render, canShare, share, upload);
      forall i :: 0 <= i < |e| && e[i].OpenWindow? ==>
        && i == |e| - 1 && 0 < i
        && e[i - 1] == Upload(render.blob, PdfFilename(kepada))
        && e[i].url == WhatsAppLink(WaTargetNumber, UploadResult(upload).value, SendGreeting(kepada, perihal))
  {
    SendShape(kepada, perihal, found, loaded, imp, render, canShare, share, upload);
    if ReachesRender(found, loaded, imp) && render.Rendered? {
      OpenedLastAfterRender(kepada, perihal, loaded, render.blob, canShare, share, upload);
    }
  }

  lemma OpenedLastAfterRender(kepada: string, perihal: string, loaded: bool, blob: Blob,
                              canShare: bool, share: ShareOutcome, upload: UploadOutcome)
    ensures var e := Rendering(loaded) + DeliverEffects(blob, kepada, perihal, canShare, share, upload);
      forall i :: 0 <= i < |e| && e[i].OpenWindow? ==>
        && i == |e| - 1 && 0 < i
        && e[i - 1] == Upload(blob, PdfFilename(kepada))
        && e[i].url == WhatsAppLink(WaTargetNumber, UploadResult(upload).value, SendGreeting(kepada, perihal))
  {
    var d := DeliverEffects(blob, kepada, perihal, canShare, share, upload);
    var e := Rendering(loaded) + d;
    var k := |Rendering(loaded)|;
    DeliverRoutes(blob, kepada, perihal, canShare, share, upload);
    AfterRendering(loaded, d);
    forall i | 0 <= i < |e| && e[i].OpenWindow?
      ensures i == |e| - 1 && 0 < i && e[i - 1] == Upload(blob, PdfFilename(kepada))
    {
      assert e[i] == d[i - k];
      assert e[i - 1] == d[0];
    }
  }

  /** The send flow shows at most one alert, as its last effect, and never
      with an empty text. */
  lemma {:induction false} SendAlertIsLast(kepada: string, perihal: string, found: bool, loaded: bool,
                                           imp: ImportOutcome, render: RenderOutcome, canShare: bool,
                                           share: ShareOutcome, upload: UploadOutcome)
    ensures var e := SendEffects(kepada, perihal, found, loaded, imp, render, canShare, share, upload);
      forall i :: 0 <= i < |e| && e[i].Alert? ==> i == |e| - 1 && e[i].message != []
  {
    SendShape(kepada, perihal, found, loaded, imp, render, canShare, share, upload);
    if ReachesRender(found, loaded, imp) && render.Rendered? {
      AlertLastAfterRender(kepada, perihal, loaded, render.blob, canShare, share, upload);
    }
  }

  lemma AlertLastAfterRender(kepada: string, perihal: string, loaded: bool, blob: Blob,
                             canShare: bool, share: ShareOutcome, upload: UploadOutcome)
    ensures var e := Rendering(loaded) + DeliverEffects(blob, kepada, perihal, canShare, share, upload);
      forall i :: 0 <= i < |e| && e[i].Alert? ==> i == |e| - 1 && e[i].message != []
  {
    var d := DeliverEffects(blob, kepada, perihal, canShare, share, upload);
    DeliverRoutes(blob, kepada, perihal, canShare, share, upload);
    AfterRendering(loaded, d);
  }

  /** A failed upload is alerted with the server's `error` field when it is a
      non-empty string, else with "Gagal upload file"; a rejected fetch or an
      unreadable body with its own message, or "Gagal mengirim via WhatsApp"
      when that is empty. */
  lemma UploadFailureAlert(kepada: string, perihal: string, found: bool, loaded: bool, imp: ImportOutcome,
                           render: RenderOutcome, share: ShareOutcome, upload: UploadOutcome)
    requires ReachesRender(found, loaded, imp) && render.Rendered? && !upload.HttpOk?
    ensures var e := SendEffects(kepada, perihal, found, loaded, imp, render, false, share, upload);
      && e[|e| - 1].Alert?
      && (upload.HttpError? && upload.errorField.Some? && upload.errorField.value != [] ==>
            e[|e| - 1].message == upload.errorField.value)
      && (upload.HttpError? && (upload.errorField.None? || upload.errorField.value == []) ==>
            e[|e| - 1].message == "Gagal upload file")
      && (!upload.HttpError? ==> e[|e| - 1].message == AlertText(upload.message, "Gagal mengirim via WhatsApp"))
  {
    SendShape(kepada, perihal, found, loaded, imp, render, false, share, upload);
    DeliverCases(render.blob, kepada, perihal, false, share, upload);
  }

  /** The server answers 500 with `{error: "disk full"}`: the user sees
      "disk full" and WhatsApp is not opened. */
  lemma DiskFullScenario(kepada: string, perihal: string, blob: Blob)
    ensures SendEffects(kepada, perihal, true, true, Imported, Rendered(blob), false, ShareResolved,
                        HttpError(Some("disk full")))
      == [RenderPdf, Upload(blob, PdfFilename(kepada)), Alert("disk full")]
  {
    SendShape(kepada, perihal, true, true, Imported, Rendered(blob), false, ShareResolved, HttpError(Some("disk full")));
    DeliverCases(blob, kepada, perihal, false, ShareResolved, HttpError(Some("disk full")));
  }

  /** `https://wa.me/` and the target number, then the query name. */
  lemma WaLinkStart()
    ensures WaLinkBase + WaTargetNumber + TextQuery == "https://wa.me/6281234567890?text="
  {
  }

  /** The upload returns a URL: WhatsApp opens the wa.me address of the target
      number, and the `text` query decodes to the greeting, a line break and
      that URL. */
  lemma UploadedLinkScenario(kepada: string, perihal: string, blob: Blob, url: string)
    ensures var e := SendEffects(kepada, perihal, true, true, Imported, Rendered(blob), false, ShareResolved, HttpOk(Some(url)));
      var start := |"https://wa.me/6281234567890?text="|;
      && |e| == 3 && e[2].OpenWindow?
      && e[2].url[..start] == "https://wa.me/6281234567890?text="
      && UriComponent.DecodeUriComponent(e[2].url[start..])
           == Some(SendGreeting(kepada, perihal) + "\n" + url)
  {
    var greeting := SendGreeting(kepada, perihal);
    SendShape(kepada, perihal, true, true, Imported, Rendered(blob), false, ShareResolved, HttpOk(Some(url)));
    DeliverCases(blob, kepada, perihal, false, ShareResolved, HttpOk(Some(url)));
    WhatsAppLinkCarriesMessage(WaTargetNumber, url, greeting);
    WaLinkStart();
    assert WhatsAppMessage(url, greeting) == greeting + "\n" + url;
  }

  /** An ok reply without a `url` still opens WhatsApp, and the `text` query
      then ends in the word `undefined`. */
  lemma MissingUrlScenario(kepada: string, perihal: string, blob: Blob)
    ensures var e := SendEffects(kepada, perihal, true, true, Imported, Rendered(blob), false, ShareResolved, HttpOk(None));
      var start := |"https://wa.me/6281234567890?text="|;
      && |e| == 3 && e[2].OpenWindow?
      && e[2].url[..start] == "https://wa.me/6281234567890?text="
      && UriComponent.DecodeUriComponent(e[2].url[start..])
           == Some(SendGreeting(kepada, perihal) + "\n" + "undefined")
  {
    SendSeesUploadResult(kepada, perihal, true, true, Imported, Rendered(blob), false, ShareResolved,
                         HttpOk(None), HttpOk(Some(UndefinedText)));
    UploadedLinkScenario(kepada, perihal, blob, UndefinedText);
  }

  /** The send flow sees the upload only through what `uploadBlobToVercelBlob` returns or throws. */
  lemma SendSeesUploadResult(kepada: string, perihal: string, found: bool, loaded: bool, imp: ImportOutcome,
                             render: RenderOutcome, canShare: bool, share: ShareOutcome,
                             u1: UploadOutcome, u2: UploadOutcome)
    requires UploadResult(u1) == UploadResult(u2)
    ensures SendEffects(kepada, perihal, found, loaded, imp, render, canShare, share, u1)
         == SendEffects(kepada, perihal, found, loaded, imp, render, canShare, share, u2)
  {
  }

  /** A user who cancels the share sheet makes `navigator.share` reject: the
      flow alerts and neither uploads nor opens WhatsApp. */
  lemma CancelledShareAlerts(kepada: string, perihal: string, blob: Blob, message: string, upload: UploadOutcome)
    ensures SendEffects(kepada, perihal, true, true, Imported, Rendered(blob), true, ShareRejected(message), upload)
      == [RenderPdf, Share(blob, PdfFilename(kepada), ShareTitle, ShareText), Alert(AlertText(message, SendFallback))]
  {
    SendShape(kepada, perihal, true, true, Imported, Rendered(blob), true, ShareRejected(message), upload);
    DeliverCases(blob, kepada, perihal, true, ShareRejected(message), upload);
  }

  /** Each file the send flow shares or uploads carries `PdfFilename` of
      the recipient. */
  lemma SendCarriesFilename(kepada: string, perihal: string, found: bool, loaded: bool, imp: ImportOutcome,
                            render: RenderOutcome, canShare: bool, share: ShareOutcome, upload: UploadOutcome)
    ensures var e := SendEffects(kepada, perihal, found, loaded, imp, render, canShare, share, upload);
      forall i :: 0 <= i < |e| && CarriesFile(e[i]) ==> e[i].filename == PdfFilename(kepada)
  {
    if ReachesRender(found, loaded, imp) && render.Rendered? {
      SendRenderedCarriesFilename(kepada, perihal, loaded, render.blob, canShare, share, upload);
    }
    SendShape(kepada, perihal, found, loaded, imp, render, canShare, share, upload);
  }

  /** Both handlers name the file the same way: every file the download flow
      saves has the name of every file the send flow hands on, whatever the
      outcomes of the two flows. */
  lemma HandlersAgreeOnFilename(kepada: string, perihal: string,
                                dFound: bool, dLoaded: bool, dImp: ImportOutcome, dRender: RenderOutcome,
                                found: bool, loaded: bool, imp: ImportOutcome, render: RenderOutcome,
                                canShare: bool, share: ShareOutcome, upload: UploadOutcome)
    ensures var d := DownloadEffects(PdfFilename(kepada), dFound, dLoaded, dImp, dRender);
      var e := SendEffects(kepada, perihal, found, loaded, imp, render, canShare, share, upload);
      forall i, j :: 0 <= i < |d| && 0 <= j < |e| && CarriesFile(d[i]) && CarriesFile(e[j])
        ==> d[i].filename == e[j].filename
  {
    DownloadOrAlert(PdfFilename(kepada), dFound, dLoaded, dImp, dRender);
    SendCarriesFilename(kepada, perihal, found, loaded, imp, render, canShare, share, upload);
  }

  lemma SendRenderedCarriesFilename(kepada: string, perihal: string, loaded: bool, blob: Blob,
                                    canShare: bool, share: ShareOutcome, upload: UploadOutcome)
    ensures var e := Rendering(loaded) + DeliverEffects(blob, kepada, perihal, canShare, share, upload);
      forall i :: 0 <= i < |e| && CarriesFile(e[i]) ==> e[i].filename == PdfFilename(kepada)
  {
    var d := DeliverEffects(blob, kepada, perihal, canShare, share, upload);
    var e := Rendering(loaded) + d;
    AfterRendering(loaded, d);
    var k := |Rendering(loaded)|;
    forall i | 0 <= i < |e| && CarriesFile(e[i]) ensures e[i].filename == PdfFilename(kepada) {
      assert i >= k;
      assert e[i] == d[i - k];
    }
  }
}
