/** Text extraction of `process_document`: dispatch on the lower-cased file
    extension, PDF page concatenation, OCR with its sentinels, plain-text
    reading, and the fallback text for files with nothing readable. */
module Extractor {
  import opened Wrappers
  import opened Text

  /** What `pytesseract.image_to_string` does with the image. */
  datatype OcrOutcome =
    | Recognised(text: string)          // OCR ran and produced this text
    | TesseractNotFound                 // the Tesseract binary is not installed
    | OcrFailed(reason: string)         // any other exception, including `Image.open` failing

  /** What the library readers make of one stored file; which reader is
      consulted is decided by the extension alone.
      `pdfPages`: the text pypdf extracts from each page, or the reason it raised.
      `ocr`: the OCR outcome.  `utf8`: the file decoded as UTF-8, or the decode error. */
  datatype StoredFile = StoredFile(
    pdfPages: Result<seq<string>, string>,
    ocr: OcrOutcome,
    utf8: Result<string, string>)

  datatype FileKind = Pdf | Image | PlainText | Unsupported

  /** The `if/elif` dispatch on the extension. */
  function KindOf(ext: string): (k: FileKind)
    ensures k == Pdf <==> ext == ".pdf"
    ensures k == Image <==> ext == ".png" || ext == ".jpg" || ext == ".jpeg"
    ensures k == PlainText <==> ext == ".txt"
  {
    if ext == ".pdf" then Pdf
    else if ext in [".png", ".jpg", ".jpeg"] then Image
    else if ext == ".txt" then PlainText
    else Unsupported
  }

  // ---------------------------------------------------------------------------
  // PDF
  // ---------------------------------------------------------------------------

  /** Each page's text followed by a newline, in page order. */
  function PagesText(pages: seq<string>): string
  {
    if pages == [] then [] else PagesText(pages[..|pages| - 1]) + pages[|pages| - 1] + "\n"
  }

  /** `extract_text_from_pdf`: `text += page.extract_text() + "\n"` over the pages. */
  method PdfText(pages: seq<string>) returns (text: string)
    ensures text == PagesText(pages)
  {
    text := "";
    var i := 0;
    while i < |pages|
      invariant 0 <= i <= |pages|
      invariant text == PagesText(pages[..i])
    {
      assert pages[..i + 1][..i] == pages[..i];
      text := text + pages[i] + "\n";
      i := i + 1;
    }
    assert pages[..i] == pages;
  }

  lemma BlankConcat(a: string, b: string)
    ensures IsBlank(a + b) <==> IsBlank(a) && IsBlank(b)
  {
    if IsBlank(a) && IsBlank(b) {
      forall i | 0 <= i < |a + b| ensures IsSpace((a + b)[i]) {
        if i < |a| { assert (a + b)[i] == a[i]; } else { assert (a + b)[i] == b[i - |a|]; }
      }
    }
    if IsBlank(a + b) {
      forall i | 0 <= i < |a| ensures IsSpace(a[i]) { assert (a + b)[i] == a[i]; }
      forall i | 0 <= i < |b| ensures IsSpace(b[i]) { assert (a + b)[|a| + i] == b[i]; }
    }
  }

  /** A PDF's text is blank exactly when every page's text is: the newlines
      between pages never make a scanned PDF look readable. */
  lemma {:induction false} PagesTextBlank(pages: seq<string>)
    ensures IsBlank(PagesText(pages)) <==> forall i :: 0 <= i < |pages| ==> IsBlank(pages[i])
  {
    if pages != [] {
      var init := pages[..|pages| - 1];
      var last := pages[|pages| - 1];
      PagesTextBlank(init);
      BlankConcat(PagesText(init) + last, "\n");
      BlankConcat(PagesText(init), last);
      assert IsSpace('\n');
      assert forall i :: 0 <= i < |init| ==> init[i] == pages[i];
    }
  }

  // ---------------------------------------------------------------------------
  // Images
  // ---------------------------------------------------------------------------

  const TesseractMissingText: string :=
    "[Image content cannot be read - Tesseract OCR is not installed on the server]"

  /** `extract_text_from_image`: never raises; failures become sentinel texts. */
  function ImageText(ocr: OcrOutcome): string
  {
    match ocr
    case Recognised(t) => t
    case TesseractNotFound => TesseractMissingText
    case OcrFailed(e) => "[Error extracting text from image: " + e + "]"
  }

  /** An OCR failure is indexed as its sentinel text, which is never blank, so
      the filename fallback does not apply to it. */
  lemma OcrSentinelsNotBlank(ocr: OcrOutcome)
    requires !ocr.Recognised?
    ensures !IsBlank(ImageText(ocr))
    ensures ImageText(ocr) != [] && ImageText(ocr)[|ImageText(ocr)| - 1] == ']'
  {
    var t := ImageText(ocr);
    assert t[|t| - 1] == ']';
    assert !IsSpace(t[|t| - 1]);
  }

  // ---------------------------------------------------------------------------
  // Plain text
  // ---------------------------------------------------------------------------

  /** Text-mode reading translates `\r\n` and a lone `\r` into `\n`. */
  function TranslateNewlines(s: string): (r: string)
    ensures |r| <= |s|
    ensures forall i :: 0 <= i < |r| ==> r[i] != '\r'
  {
    if s == [] then []
    else if s[0] == '\r' then "\n" + TranslateNewlines(if 1 < |s| && s[1] == '\n' then s[2..] else s[1..])
    else [s[0]] + TranslateNewlines(s[1..])
  }

  /** A text without carriage returns is read verbatim. */
  lemma {:induction false} TranslateNewlinesIdentity(s: string)
    requires forall i :: 0 <= i < |s| ==> s[i] != '\r'
    ensures TranslateNewlines(s) == s
  {
    if s != [] {
      assert forall i :: 0 <= i < |s[1..]| ==> s[1..][i] == s[i + 1];
      TranslateNewlinesIdentity(s[1..]);
    }
  }

  /** Newline translation neither creates nor hides readable content. */
  lemma {:induction false} TranslateNewlinesBlank(s: string)
    ensures IsBlank(TranslateNewlines(s)) <==> IsBlank(s)
    decreases |s|
  {
    if s != [] {
      var rest := if s[0] == '\r' && 1 < |s| && s[1] == '\n' then s[2..] else s[1..];
      TranslateNewlinesBlank(rest);
      var head := if s[0] == '\r' then "\n" else [s[0]];
      assert TranslateNewlines(s) == head + TranslateNewlines(rest);
      BlankConcat(head, TranslateNewlines(rest));
      var skipped := s[..|s| - |rest|];
      assert s == skipped + rest;
      BlankConcat(skipped, rest);
      assert IsBlank(head) <==> IsBlank(skipped) by {
        assert IsSpace('\n') && IsSpace('\r');
        if |skipped| == 2 { assert skipped == "\r\n"; } else { assert skipped == [s[0]]; }
      }
    }
  }

  // ---------------------------------------------------------------------------
  // Dispatch and fallback
  // ---------------------------------------------------------------------------

  /** The text extracted for a file of the given (lower-cased) extension, or the
      reason the reader raised. An unknown extension extracts nothing. */
  function ExtractText(ext: string, file: StoredFile): (r: Result<string, string>)
    ensures KindOf(ext) == Image || KindOf(ext) == Unsupported ==> r.Ok?
    ensures KindOf(ext) == Unsupported ==> r == Ok("")
    ensures r.Err? ==>
      || (KindOf(ext) == Pdf && file.pdfPages == Err(r.error))
      || (KindOf(ext) == PlainText && file.utf8 == Err(r.error))
  {
    match KindOf(ext)
    case Pdf =>
      (match file.pdfPages
       case Ok(pages) => Ok(PagesText(pages))
       case Err(e) => Err(e))
    case Image => Ok(ImageText(file.ocr))
    case PlainText =>
      (match file.utf8
       case Ok(s) => Ok(TranslateNewlines(s))
       case Err(e) => Err(e))
    case Unsupported => Ok("")
  }

  const UnreadableMarker: string := "[Content unreadable - Scanned document or Image without OCR]"

  /** The synthetic text indexed for a file whose content is unreadable. */
  function FallbackText(filePath: string): string
  {
    "Filename: " + Basename(filePath) + "\n" + UnreadableMarker
  }

  /** The text that is chunked: the extracted text, or the fallback when the
      extracted text is empty or whitespace only. */
  function IndexedText(filePath: string, extracted: string): (r: string)
    ensures !IsBlank(r) && r != []
    ensures !IsBlank(extracted) ==> r == extracted
    ensures IsBlank(extracted) ==> r == FallbackText(filePath)
  {
    if IsBlank(extracted) then
      assert FallbackText(filePath)[0] == 'F';
      FallbackText(filePath)
    else extracted
  }
}
