/** `obfuscateHtmlContent`: the guard on the pasted markup, the cleaning, the
    hex encoding, the generated loader script and the page that carries it. */
module Obfuscator {
  import opened JsText
  import opened Hex
  import opened Encoder
  import opened Decoder
  import opened Normaliser

  const Quote: CodeUnit := 0x27

  // ---------------------------------------------------------------------
  // The loader script (the template literal of `jsLoader`)

  /** The text before `${hexCodesString}`. */
  const LoaderHead: JsString := Units("(function(){var a='")

  const TailDecls: JsString := Units("',b=[],c,d='';")
  const TailSliceLoopHead: JsString := Units("for(c=0;c<a.length;c+=2){")
  const TailSliceLoopBody: JsString := Units("b.push(a.substring(c,c+2));}")
  const TailCharLoopHead: JsString := Units("for(c=0;c<b.length;c++){")
  const TailCharLoopBody: JsString := Units("d+=String.fromCharCode(parseInt(b[c],16));}")
  const TailReplaceCall: JsString := Units("d=d.replace(/<\\x2Fscript>/g,")
  const TailReplaceArg: JsString := Units("'<'+'/script>');")
  const TailWrite: JsString := Units("document.open();document.write(d);")
  const TailClose: JsString := Units("document.close();})();")

  /** The text after `${hexCodesString}`: the end of the literal `a`, the two
      decoding loops, the substitution and the `document.write` sink. */
  const LoaderTail: JsString :=
    TailDecls + TailSliceLoopHead + TailSliceLoopBody + TailCharLoopHead + TailCharLoopBody +
    TailReplaceCall + TailReplaceArg + TailWrite + TailClose

  /** The loader for a given hex string. */
  function MakeLoader(hex: JsString): JsString {
    LoaderHead + hex + LoaderTail
  }

  /** The value of the literal `a` in a loader: what follows the opening
      `var a='` up to the next quote. `None` when the text is not shaped like
      a loader. */
  function EmbeddedLiteral(loader: JsString): Option<JsString> {
    if OccursAt(loader, 0, LoaderHead) then
      match IndexOf(loader, [Quote], |LoaderHead|)
      case Some(j) => Some(loader[|LoaderHead|..j])
      case None => None
    else None
  }

  // ---------------------------------------------------------------------
  // The page (the template literal of `finalObfuscatedHtml`)

  const DocDoctype: JsString := Units("<!DOCTYPE html>\n<html>\n<head>\n")
  const DocMeta: JsString := Units("    <meta charset=\"UTF-8\">\n")
  const DocTitle: JsString := Units("    <title>Obfuscated Page</title>\n")
  const DocBodyOpen: JsString := Units("</head>\n<body>\n    <script>")

  /** Everything up to and including the start tag of the script element. */
  const DocHead: JsString := DocDoctype + DocMeta + DocTitle + DocBodyOpen

  /** The line break and indentation before `${jsLoader}`. */
  const ScriptLead: JsString := Units("\n        ")

  /** The line break and indentation before the script's end tag. */
  const ScriptTrail: JsString := Units("\n    ")

  /** The end tag of the script element and the rest of the page. */
  const DocTail: JsString := Units("</script>\n</body>\n</html>")

  /** The page for a given loader. */
  function WrapDocument(jsLoader: JsString): JsString {
    DocHead + ScriptLead + jsLoader + ScriptTrail + DocTail
  }

  /** The text of the script element opened at the end of `DocHead`, taken up
      to the first `</` after it: no end tag of any kind, and so no
      `</script`, can end the element earlier. This is where HTML ends the
      element when the text before that `</` holds no `<!` (which could open
      the escaped script states); the lemmas below use it only for such
      text. `None` when the page does not begin with `DocHead` or has no `</`
      after it. */
  function ScriptContent(doc: JsString): Option<JsString> {
    if OccursAt(doc, 0, DocHead) then
      match IndexOf(doc, EndTagOpen, |DocHead|)
      case Some(j) => Some(doc[|DocHead|..j])
      case None => None
    else None
  }

  /** The hex literal a reader of the page finds: the script element's text
      without the padding around the loader, then the loader's literal. */
  function EmbeddedHex(doc: JsString): Option<JsString> {
    match ScriptContent(doc)
    case None => None
    case Some(body) =>
      if |body| >= |ScriptLead| + |ScriptTrail|
      then EmbeddedLiteral(body[|ScriptLead|..|body| - |ScriptTrail|])
      else None
  }

  // ---------------------------------------------------------------------
  // The whole operation

  /** What one click produces: nothing but an error message for a blank
      input, or the page written to the output area. */
  datatype Outcome = Rejected | Obfuscated(document: JsString)

  /** The result the source computes for a raw input. The guard looks at
      the raw input, not at the cleaned text. */
  function Obfuscation(rawHtml: JsString): Outcome {
    if Trim(rawHtml) == [] then Rejected
    else Obfuscated(WrapDocument(MakeLoader(HexOf(Normalise(rawHtml)))))
  }

  /** The steps of `obfuscateHtmlContent` in order. */
  method ObfuscateHtmlContent(rawHtml: JsString) returns (outcome: Outcome)
    ensures outcome == Obfuscation(rawHtml)
  {
    if Trim(rawHtml) == [] {
      return Rejected;
    }
    var cleanedHtml := Normalise(rawHtml);
    var hexCodesString := HexEncode(cleanedHtml);
    var jsLoader := MakeLoader(hexCodesString);
    outcome := Obfuscated(WrapDocument(jsLoader));
  }

  // ---------------------------------------------------------------------
  // The loader is plain script data: no `</`, no `<!`

  lemma TailDeclsClean() ensures ScriptDataSafe(TailDecls) { }
  lemma TailSliceLoopHeadClean() ensures ScriptDataSafe(TailSliceLoopHead) { }
  lemma TailSliceLoopBodyClean() ensures ScriptDataSafe(TailSliceLoopBody) { }
  lemma TailCharLoopHeadClean() ensures ScriptDataSafe(TailCharLoopHead) { }
  lemma TailCharLoopBodyClean() ensures ScriptDataSafe(TailCharLoopBody) { }
  lemma TailReplaceCallClean() ensures ScriptDataSafe(TailReplaceCall) { }
  lemma TailReplaceArgClean() ensures ScriptDataSafe(TailReplaceArg) { }
  lemma TailWriteClean() ensures ScriptDataSafe(TailWrite) { }
  lemma TailCloseClean() ensures ScriptDataSafe(TailClose) { }

  /** The fixed text after the hex string holds neither `</` nor `<!`. */
  lemma LoaderTailClean()
    ensures ScriptDataSafe(LoaderTail)
    ensures LoaderTail[0] == Quote
  {
    TailDeclsClean();
    TailSliceLoopHeadClean();
    TailSliceLoopBodyClean();
    TailCharLoopHeadClean();
    TailCharLoopBodyClean();
    TailReplaceCallClean();
    TailReplaceArgClean();
    TailWriteClean();
    TailCloseClean();
    var t := TailDecls;
    ScriptDataSafeConcat(t, TailSliceLoopHead);
    t := t + TailSliceLoopHead;
    ScriptDataSafeConcat(t, TailSliceLoopBody);
    t := t + TailSliceLoopBody;
    ScriptDataSafeConcat(t, TailCharLoopHead);
    t := t + TailCharLoopHead;
    ScriptDataSafeConcat(t, TailCharLoopBody);
    t := t + TailCharLoopBody;
    ScriptDataSafeConcat(t, TailReplaceCall);
    t := t + TailReplaceCall;
    ScriptDataSafeConcat(t, TailReplaceArg);
    t := t + TailReplaceArg;
    ScriptDataSafeConcat(t, TailWrite);
    t := t + TailWrite;
    ScriptDataSafeConcat(t, TailClose);
  }

  /** Hex digits hold neither `<` nor a quote. */
  lemma HexDigitsInert(hex: JsString)
    requires AllHexDigits(hex)
    ensures ScriptDataSafe(hex)
    ensures forall i | 0 <= i < |hex| :: hex[i] != Lt && hex[i] != Quote
  {
  }

  /** The loader for any hex string holds no `</` and no `<!`: it cannot
      end the script element that carries it, nor switch the element into
      the escaped states; in particular it holds no `</script>`. */
  lemma LoaderHasNoEndTag(hex: JsString)
    requires AllHexDigits(hex)
    ensures ScriptDataSafe(MakeLoader(hex))
    ensures !Contains(MakeLoader(hex), ScriptClosePattern)
  {
    assert ScriptDataSafe(LoaderHead);
    HexDigitsInert(hex);
    LoaderTailClean();
    ScriptDataSafeConcat(LoaderHead, hex);
    ScriptDataSafeConcat(LoaderHead + hex, LoaderTail);
    ScriptDataSafeHasNoEndTagOpen(MakeLoader(hex));
    NoEndTagOpenExcludes(MakeLoader(hex), ScriptClosePattern);
  }

  /** The literal `a` of the loader evaluates to the hex string it was made
      from: hex digits hold no quote and no backslash, and the quote that
      ends the literal is the first one after `var a='`. */
  lemma {:induction false} EmbeddedLiteralOfLoader(hex: JsString)
    requires AllHexDigits(hex)
    ensures EmbeddedLiteral(MakeLoader(hex)) == Some(hex)
  {
    HexDigitsInert(hex);
    LoaderTailClean();
    FirstUnitAt(LoaderHead, hex, LoaderTail, Quote);
    ThreeParts(LoaderHead, hex, LoaderTail);
  }

  // ---------------------------------------------------------------------
  // The page

  lemma ScriptPaddingClean()
    ensures ScriptDataSafe(ScriptLead) && ScriptDataSafe(ScriptTrail)
    ensures ScriptLead[|ScriptLead| - 1] != Lt && ScriptTrail[|ScriptTrail| - 1] != Lt
    ensures DocTail[0] == Lt && DocTail[1] == Slash
  {
  }

  /** The loader with its padding holds no `</` and no `<!`, and does not
      end in `<`. */
  lemma ScriptBodyClean(jsLoader: JsString)
    requires ScriptDataSafe(jsLoader)
    ensures ScriptDataSafe(ScriptLead + jsLoader + ScriptTrail)
    ensures NoEndTagOpen(ScriptLead + jsLoader + ScriptTrail)
    ensures (ScriptLead + jsLoader + ScriptTrail)[|ScriptLead + jsLoader + ScriptTrail| - 1] != Lt
  {
    ScriptPaddingClean();
    ScriptDataSafeConcat(ScriptLead, jsLoader);
    ScriptDataSafeConcat(ScriptLead + jsLoader, ScriptTrail);
    ScriptDataSafeHasNoEndTagOpen(ScriptLead + jsLoader + ScriptTrail);
  }

  /** A loader without `</` and `<!` is the whole of the script element, up
      to the padding around it, and the element is ended by the page's own
      `</script>`, which the rest of the page follows. */
  lemma {:induction false} ScriptContentOfWrap(jsLoader: JsString)
    requires ScriptDataSafe(jsLoader)
    ensures ScriptContent(WrapDocument(jsLoader)) == Some(ScriptLead + jsLoader + ScriptTrail)
    ensures OccursAt(WrapDocument(jsLoader), |DocHead| + |ScriptLead + jsLoader + ScriptTrail|, DocTail)
    ensures |WrapDocument(jsLoader)| == |DocHead| + |ScriptLead + jsLoader + ScriptTrail| + |DocTail|
  {
    var m := ScriptLead + jsLoader + ScriptTrail;
    ScriptBodyClean(jsLoader);
    ScriptPaddingClean();
    assert WrapDocument(jsLoader) == DocHead + m + DocTail;
    FirstEndTagOpen(DocHead, m, DocTail);
    ThreeParts(DocHead, m, DocTail);
  }

  // ---------------------------------------------------------------------
  // Properties of the whole operation

  /** Output is withheld exactly when the raw input is blank. */
  lemma {:induction false} RejectedExactlyWhenBlank(rawHtml: JsString)
    ensures Obfuscation(rawHtml) == Rejected <==> AllWhitespace(rawHtml)
  {
  }

  /** A page is produced for an input made only of a comment, even though
      nothing of it survives cleaning: its loader carries an empty literal. */
  lemma CommentOnlyInputAccepted()
    ensures Obfuscation(Units("<!--x-->")) == Obfuscated(WrapDocument(MakeLoader([])))
  {
    var raw := Units("<!--x-->");
    assert raw == [] + CommentOpen + Units("x") + CommentClose + [];
    RemovesFirstComment([], Units("x"), []);
    assert Trim(raw) != [] by { assert !IsWhitespace(raw[0]); }
  }

  /** The script element of `doc` holds no `</` and no `<!` at all, hence no
      `</script>`, and it is ended by the page's own `</script>`. */
  predicate ScriptClosedOnce(doc: JsString) {
    ScriptContent(doc).Some? &&
    ScriptDataSafe(ScriptContent(doc).value) &&
    !Contains(ScriptContent(doc).value, ScriptClosePattern) &&
    OccursAt(doc, |DocHead| + |ScriptContent(doc).value|, DocTail)
  }

  /** The page's script element holds no `</script>` (indeed no `</` and no
      `<!` at all), and it is ended by the page's own `</script>`. */
  lemma {:induction false} PageScriptIsClosedOnce(rawHtml: JsString)
    requires !AllWhitespace(rawHtml)
    ensures Obfuscation(rawHtml).Obfuscated?
    ensures ScriptClosedOnce(Obfuscation(rawHtml).document)
  {
    var hex := HexOf(Normalise(rawHtml));
    ObfuscationOfText(rawHtml);
    LoaderHasNoEndTag(hex);
    WrappedScriptClean(MakeLoader(hex));
  }

  /** The page of a non-blank input is the page of its cleaned text's loader. */
  lemma ObfuscationOfText(rawHtml: JsString)
    requires !AllWhitespace(rawHtml)
    ensures Obfuscation(rawHtml) == Obfuscated(WrapDocument(MakeLoader(HexOf(Normalise(rawHtml)))))
  {
  }

  /** `doc` is read back as a page carrying `jsLoader`: it opens with the
      fixed head, its script element is the loader between its padding, and
      the fixed tail follows that element and ends the page. */
  predicate PageCarries(doc: JsString, jsLoader: JsString) {
    OccursAt(doc, 0, DocHead) &&
    ScriptContent(doc) == Some(ScriptLead + jsLoader + ScriptTrail) &&
    OccursAt(doc, |DocHead| + |ScriptLead + jsLoader + ScriptTrail|, DocTail) &&
    |doc| == |DocHead| + |ScriptLead + jsLoader + ScriptTrail| + |DocTail|
  }

  lemma WrapCarries(jsLoader: JsString)
    requires ScriptDataSafe(jsLoader)
    ensures PageCarries(WrapDocument(jsLoader), jsLoader)
  {
    ScriptContentOfWrap(jsLoader);
  }

  /** The page of a non-blank input, read back through its script element:
      the fixed head, then the loader built from the cleaned text's hex
      string, then the fixed tail, which ends the page. */
  lemma {:induction false} PageLayout(rawHtml: JsString)
    requires !AllWhitespace(rawHtml)
    ensures Obfuscation(rawHtml).Obfuscated?
    ensures PageCarries(Obfuscation(rawHtml).document, MakeLoader(HexOf(Normalise(rawHtml))))
  {
    var hex := HexOf(Normalise(rawHtml));
    ObfuscationOfText(rawHtml);
    LoaderHasNoEndTag(hex);
    WrapCarries(MakeLoader(hex));
  }

  /** Any loader without `</` and `<!` leaves the page's script element
      closed once. */
  lemma WrappedScriptClean(jsLoader: JsString)
    requires ScriptDataSafe(jsLoader)
    ensures ScriptClosedOnce(WrapDocument(jsLoader))
  {
    ScriptContentOfWrap(jsLoader);
    ScriptBodyClean(jsLoader);
    NoEndTagOpenExcludes(ScriptLead + jsLoader + ScriptTrail, ScriptClosePattern);
  }

  /** What the page carries, read back from the page itself: a hex string of
      at least two digits per unit of the cleaned text, exactly two per unit
      when every unit is below `0x100`; and the decoder turns it back into
      the cleaned text exactly when every unit is below `0x100`. */
  lemma {:induction false} PageRoundTrip(rawHtml: JsString)
    requires !AllWhitespace(rawHtml)
    ensures Obfuscation(rawHtml).Obfuscated?
    ensures var hex := EmbeddedHex(Obfuscation(rawHtml).document);
            var cleaned := Normalise(rawHtml);
            hex.Some? &&
            AllHexDigits(hex.value) &&
            2 * |cleaned| <= |hex.value| &&
            (|hex.value| == 2 * |cleaned| <==> AllBelow0x100(cleaned)) &&
            (Decoded(hex.value) == cleaned <==> AllBelow0x100(cleaned))
  {
    var cleaned := Normalise(rawHtml);
    var hex := HexOf(cleaned);
    ObfuscationOfText(rawHtml);
    EmbeddedHexOfPage(hex);
    RoundTripExactlyBelow0x100(cleaned);
  }

  /** The literal read back from the page for a hex string is that string. */
  lemma EmbeddedHexOfPage(hex: JsString)
    requires AllHexDigits(hex)
    ensures EmbeddedHex(WrapDocument(MakeLoader(hex))) == Some(hex)
  {
    var loader := MakeLoader(hex);
    LoaderHasNoEndTag(hex);
    ScriptContentOfWrap(loader);
    ThreeParts(ScriptLead, loader, ScriptTrail);
    EmbeddedLiteralOfLoader(hex);
  }
}
