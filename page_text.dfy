/**
 * The strings src/app/page.js derives from the form: the label shown for a
 * specification key, the PDF file name, and the WhatsApp deep link.
 */
module PageText {
  import opened JsText
  import opened UriComponent
  import opened Wrappers

  // ---- Specification key to label ----

  function CountUpper(k: string): (n: nat)
    ensures n <= |k|
  {
    if k == [] then 0 else (if IsAsciiUpper(k[0]) then 1 else 0) + CountUpper(k[1..])
  }

  /** `key.replace(/([A-Z])/g, " $1")`: a space before every capital letter. */
  function SpaceBeforeCapitals(k: string): (r: string)
    ensures |r| == |k| + CountUpper(k)
    ensures k != [] && !IsAsciiUpper(k[0]) ==> r != [] && r[0] == k[0]
  {
    if k == [] then []
    else (if IsAsciiUpper(k[0]) then [' ', k[0]] else [k[0]]) + SpaceBeforeCapitals(k[1..])
  }

  /** `.replace(/^./, (str) => str.toUpperCase())`: the first character, unless
      it is a line terminator (which `.` does not match), made upper case. */
  function CapitalizeFirst(t: string): (r: string)
    ensures |r| == |t|
    ensures t != [] ==> r[1..] == t[1..]
  {
    if t != [] && !IsLineTerminator(t[0]) then [ToUpperAscii(t[0])] + t[1..] else t
  }

  /** The label of a specification row (src/app/page.js:364-366 and 438-440). */
  function KeyLabel(key: string): (shown: string)
    ensures |shown| == |key| + CountUpper(key)
    ensures key != [] && IsAsciiLower(key[0]) ==> shown[0] == ToUpperAscii(key[0])
  {
    CapitalizeFirst(SpaceBeforeCapitals(key))
  }

  /** The partner of the key-to-label transform: drop each space that stands
      before a capital letter. */
  function RemoveSpaceBeforeCapitals(t: string): string {
    if |t| >= 2 && t[0] == ' ' && IsAsciiUpper(t[1]) then [t[1]] + RemoveSpaceBeforeCapitals(t[2..])
    else if t == [] then []
    else [t[0]] + RemoveSpaceBeforeCapitals(t[1..])
  }

  /** From a label back to its key: first letter lower case, inserted spaces dropped. */
  function LabelToKey(shown: string): string {
    if shown == [] then [] else [ToLowerAscii(shown[0])] + RemoveSpaceBeforeCapitals(shown[1..])
  }

  lemma {:induction false} RemoveSpaceBeforeCapitalsInverse(k: string)
    requires ' ' !in k
    ensures RemoveSpaceBeforeCapitals(SpaceBeforeCapitals(k)) == k
  {
    if k != [] {
      var rest := SpaceBeforeCapitals(k[1..]);
      RemoveSpaceBeforeCapitalsInverse(k[1..]);
      if IsAsciiUpper(k[0]) {
        assert ([' ', k[0]] + rest)[2..] == rest;
      } else {
        assert ([k[0]] + rest)[1..] == rest;
      }
      assert [k[0]] + k[1..] == k;
    }
  }

  /** For a key that starts with a lower-case letter: the label starts with
      that letter in upper case, has one extra character per capital letter,
      and leads back to the key when the key has no spaces. */
  lemma KeyLabelOfCamelCase(key: string)
    requires key != [] && IsAsciiLower(key[0])
    ensures |KeyLabel(key)| == |key| + CountUpper(key)
    ensures KeyLabel(key)[0] == ToUpperAscii(key[0]) && IsAsciiUpper(KeyLabel(key)[0])
    ensures KeyLabel(key)[1..] == SpaceBeforeCapitals(key[1..])
    ensures ' ' !in key ==> LabelToKey(KeyLabel(key)) == key
  {
    var s := SpaceBeforeCapitals(key);
    assert s == [key[0]] + SpaceBeforeCapitals(key[1..]);
    if ' ' !in key {
      assert ' ' !in key[1..] by {
        forall i | 0 <= i < |key[1..]| ensures key[1..][i] != ' ' {
          assert key[1..][i] == key[i + 1];
        }
      }
      RemoveSpaceBeforeCapitalsInverse(key[1..]);
      LowerOfUpper(key[0]);
      assert [key[0]] + key[1..] == key;
    }
  }

  lemma {:induction false} SpaceBeforeCapitalsAppend(a: string, b: string)
    ensures SpaceBeforeCapitals(a + b) == SpaceBeforeCapitals(a) + SpaceBeforeCapitals(b)
  {
    if a != [] {
      assert (a + b)[0] == a[0] && (a + b)[1..] == a[1..] + b;
      SpaceBeforeCapitalsAppend(a[1..], b);
    } else {
      assert a + b == b;
    }
  }

  lemma {:induction false} SpaceBeforeCapitalsNone(k: string)
    requires forall i :: 0 <= i < |k| ==> !IsAsciiUpper(k[i])
    ensures SpaceBeforeCapitals(k) == k
  {
    if k != [] {
      SpaceBeforeCapitalsNone(k[1..]);
      assert [k[0]] + k[1..] == k;
    }
  }

  lemma SpaceBeforeBody()
    ensures SpaceBeforeCapitals("Body") == " Body"
  {
    assert "Body"[1..] == "ody";
    SpaceBeforeCapitalsNone("ody");
  }

  lemma SpaceBeforeModel()
    ensures SpaceBeforeCapitals("model") == "model"
  {
    SpaceBeforeCapitalsNone("model");
  }

  lemma SpaceInModelBody()
    ensures SpaceBeforeCapitals("modelBody") == "model Body"
  {
    assert "model" + "Body" == "modelBody";
    SpaceBeforeCapitalsAppend("model", "Body");
    SpaceBeforeModel();
    SpaceBeforeBody();
    assert "model" + " Body" == "model Body";
  }

  lemma KeyLabelExample()
    ensures KeyLabel("modelBody") == "Model Body"
  {
    SpaceInModelBody();
  }

  // ---- File name of the generated PDF ----

  const FilenamePrefix := "Surat_Penawaran_"
  const PdfExtension := ".pdf"

  /** `Surat_Penawaran_${kepada.replace(/\s/g, "_")}.pdf` (src/app/page.js:154-157,
      the same expression as 170-173): the fixed prefix, the recipient with
      every whitespace character turned into `_`, and the extension. */
  function PdfFilename(kepada: string): (name: string)
    ensures |name| == |kepada| + 20
    ensures name[..16] == FilenamePrefix && name[|name| - 4..] == PdfExtension
    ensures forall i :: 0 <= i < |kepada| ==>
      name[16 + i] == if IsJsWhitespace(kepada[i]) then '_' else kepada[i]
    ensures NoWhitespace(name)
  {
    FilenamePrefix + ReplaceWhitespace(kepada) + PdfExtension
  }

  lemma PdfFilenameOfEmptyRecipient()
    ensures PdfFilename("") == "Surat_Penawaran_.pdf"
  {
    assert ReplaceWhitespace("") == "";
  }

  lemma ReplaceWhitespaceExample()
    ensures ReplaceWhitespace("PT Maju") == "PT_Maju"
  {
    ExampleWordsPlain();
    ReplaceSpaceBetween("PT", "Maju");
    ExampleWordsJoined();
  }

  lemma ExampleWordsPlain()
    ensures NoWhitespace("PT") && NoWhitespace("Maju")
  {
    var a, b := "PT", "Maju";
    assert !IsJsWhitespace(a[0]) && !IsJsWhitespace(a[1]);
    assert !IsJsWhitespace(b[0]) && !IsJsWhitespace(b[1]) && !IsJsWhitespace(b[2]) && !IsJsWhitespace(b[3]);
  }

  lemma ExampleWordsJoined()
    ensures "PT" + " " + "Maju" == "PT Maju" && "PT" + "_" + "Maju" == "PT_Maju"
  {
  }

  /** Two words without whitespace, joined by a space, are joined by `_`. */
  lemma ReplaceSpaceBetween(a: string, b: string)
    requires NoWhitespace(a) && NoWhitespace(b)
    ensures ReplaceWhitespace(a + " " + b) == a + "_" + b
  {
    ReplaceWhitespaceAppend(a + " ", b);
    ReplaceWhitespaceAppend(a, " ");
    ReplaceWhitespaceKeeps(a);
    ReplaceWhitespaceKeeps(b);
    assert ReplaceWhitespace(" ") == "_";
  }

  lemma {:induction false} ReplaceWhitespaceAppend(x: string, y: string)
    ensures ReplaceWhitespace(x + y) == ReplaceWhitespace(x) + ReplaceWhitespace(y)
    decreases |x|
  {
    if x == [] {
      assert x + y == y;
    } else {
      assert (x + y)[0] == x[0] && (x + y)[1..] == x[1..] + y;
      ReplaceWhitespaceAppend(x[1..], y);
    }
  }

  lemma ReplaceWhitespaceKeeps(x: string)
    requires NoWhitespace(x)
    ensures ReplaceWhitespace(x) == x
  {
  }

  lemma PdfFilenameExample()
    ensures PdfFilename("PT Maju") == "Surat_Penawaran_PT_Maju.pdf"
  {
    ReplaceWhitespaceExample();
    JoinExampleName();
  }

  lemma JoinExampleName()
    ensures FilenamePrefix + "PT_Maju" + PdfExtension == "Surat_Penawaran_PT_Maju.pdf"
  {
    assert FilenamePrefix + "PT_Maju" == "Surat_Penawaran_PT_Maju";
  }

  /** Two recipients give the same file name exactly when they agree once
      whitespace is replaced. */
  lemma PdfFilenameDeterminedByRecipient(a: string, b: string)
    ensures PdfFilename(a) == PdfFilename(b) <==> ReplaceWhitespace(a) == ReplaceWhitespace(b)
  {
    var n, m := PdfFilename(a), PdfFilename(b);
    assert n[16..|n| - 4] == ReplaceWhitespace(a);
    assert m[16..|m| - 4] == ReplaceWhitespace(b);
  }

  // ---- WhatsApp deep link ----

  /** `WA_TARGET_NUMBER` (src/app/page.js:15). */
  const WaTargetNumber := "6281234567890"
  const WaLinkBase := "https://wa.me/"
  const TextQuery := "?text="

  /** The text carried by the link: the extra text and a line break when the
      extra text is a non-empty (truthy) string, then the URL. */
  function WhatsAppMessage(url: string, extraText: string): (msg: string)
    ensures |msg| == |url| + (if extraText == [] then 0 else |extraText| + 1)
    ensures extraText == [] ==> msg == url
    ensures extraText != [] ==> msg[..|extraText|] == extraText && msg[|extraText|] == '\n'
    ensures msg[|msg| - |url|..] == url
  {
    (if extraText != [] then extraText + "\n" else "") + url
  }

  /** The URL `openWhatsAppWithLink` opens (src/app/page.js:79-81). */
  function WhatsAppLink(phone: string, url: string, extraText: string): (link: string)
    ensures var start := WaLinkBase + phone + TextQuery;
      |start| + |WhatsAppMessage(url, extraText)| <= |link| && link[..|start|] == start
  {
    WaLinkBase + phone + TextQuery + EncodeUriComponent(WhatsAppMessage(url, extraText))
  }

  /** The link is the wa.me address of the phone number, then `?text=` and a
      query that contains no raw separator and decodes to the message. */
  lemma WhatsAppLinkCarriesMessage(phone: string, url: string, extraText: string)
    ensures var link := WhatsAppLink(phone, url, extraText);
            var start := |WaLinkBase + phone + TextQuery|;
            && link[..start] == WaLinkBase + phone + TextQuery
            && DecodeUriComponent(link[start..]) == Some(WhatsAppMessage(url, extraText))
            && forall i :: start <= i < |link| ==> link[i] !in {' ', '\n', '&', '#', '?'}
  {
    var q := EncodeUriComponent(WhatsAppMessage(url, extraText));
    var link := WhatsAppLink(phone, url, extraText);
    var start := |WaLinkBase + phone + TextQuery|;
    assert link[start..] == q;
    DecodeEncode(WhatsAppMessage(url, extraText));
    EncodedHasNoSeparators(WhatsAppMessage(url, extraText));
    forall i | start <= i < |link| ensures link[i] !in {' ', '\n', '&', '#', '?'} {
      assert link[i] == q[i - start];
    }
  }

  /** The greeting sent with the link (src/app/page.js:186). */
  function SendGreeting(kepada: string, perihal: string): (text: string)
    ensures text != []
  {
    "Halo, ini surat penawaran untuk " + kepada + " (" + perihal + ")."
  }

  // ---- Alert text ----

  /** `alert(e.message || fallback)`: an empty or missing message is falsy,
      so the user never sees an empty alert while the fallback has text. */
  function AlertText(message: string, fallback: string): (text: string)
    ensures text == message || text == fallback
    ensures message != [] ==> text == message
    ensures fallback != [] ==> text != []
  {
    if message != [] then message else fallback
  }
}
