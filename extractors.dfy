/** The three text extractors of main_full_final_exonascope.py, over what the
    parsing libraries hand back: the text layer of each PDF page (fitz), the
    OCR text of each rasterised page (pdf2image and pytesseract) and the text
    of each DOCX paragraph (python-docx). */
module Extractors {
  import opened Text

  /** The page texts kept by the comprehension's `if page.get_text()`: the
      non-empty ones (whitespace-only pages are kept), in page order. */
  function NonEmptyPages(pages: seq<string>): (kept: seq<string>)
    ensures |kept| <= |pages|
    ensures forall i :: 0 <= i < |kept| ==> kept[i] != "" && kept[i] in pages
    ensures forall i :: 0 <= i < |pages| && pages[i] != "" ==> pages[i] in kept
  {
    if pages == [] then []
    else (if pages[0] != "" then [pages[0]] else []) + NonEmptyPages(pages[1..])
  }

  /** Filtering respects page order: the pages kept from a document made of two
      runs of pages are those kept from the first run, then those of the second. */
  lemma {:induction false} NonEmptyPagesAppend(a: seq<string>, b: seq<string>)
    ensures NonEmptyPages(a + b) == NonEmptyPages(a) + NonEmptyPages(b)
  {
    if a != [] {
      assert (a + b)[1..] == a[1..] + b;
      NonEmptyPagesAppend(a[1..], b);
    } else {
      assert a + b == b;
    }
  }

  /** `parse_pdf_text`: the non-empty page texts joined with newlines. */
  function ParsePdfText(pages: seq<string>): string {
    Join(NonEmptyPages(pages), "\n")
  }

  /** The direct text of a PDF is whitespace-only exactly when every page's text
      layer is whitespace-only: this is when the OCR fallback is taken. */
  lemma PdfTextBlankIff(pages: seq<string>)
    ensures Blank(ParsePdfText(pages)) <==> forall i :: 0 <= i < |pages| ==> Blank(pages[i])
  {
    var kept := NonEmptyPages(pages);
    BlankJoin(kept, "\n");
    if forall i :: 0 <= i < |pages| ==> Blank(pages[i]) {
      forall i | 0 <= i < |kept| ensures Blank(kept[i]) {
        var j :| 0 <= j < |pages| && pages[j] == kept[i];
      }
    }
    if forall i :: 0 <= i < |kept| ==> Blank(kept[i]) {
      forall i | 0 <= i < |pages| ensures Blank(pages[i]) {
        if pages[i] != "" {
          var j :| 0 <= j < |kept| && kept[j] == pages[i];
        }
      }
    }
  }

  /** Every kept page appears verbatim in the direct text, at its place. */
  lemma ParsePdfTextHasPage(pages: seq<string>, i: nat)
    requires i < |NonEmptyPages(pages)|
    ensures var kept := NonEmptyPages(pages);
      Offset(kept, "\n", i) + |kept[i]| <= |ParsePdfText(pages)|
      && ParsePdfText(pages)[Offset(kept, "\n", i)..Offset(kept, "\n", i) + |kept[i]|] == kept[i]
  {
    JoinAt(NonEmptyPages(pages), "\n", i);
  }

  /** `run_ocr_on_pdf`: the OCR text of every page image, appended in page
      order with no separator. */
  method RunOcrOnPdf(pageTexts: seq<string>) returns (text: string)
    ensures text == Concat(pageTexts)
  {
    text := "";
    var i := 0;
    while i < |pageTexts|
      invariant 0 <= i <= |pageTexts|
      invariant text == Concat(pageTexts[..i])
    {
      assert pageTexts[..i + 1][..i] == pageTexts[..i];
      text := text + pageTexts[i];
      i := i + 1;
    }
    assert pageTexts[..i] == pageTexts;
  }

  /** `parse_docx`: every paragraph, empty ones included, joined with newlines. */
  function ParseDocx(paragraphs: seq<string>): string {
    Join(paragraphs, "\n")
  }

  /** Paragraphs keep their order and blank paragraphs survive as blank lines:
      when no paragraph holds a line break itself, the lines of the extracted
      text are exactly the paragraphs. */
  lemma ParseDocxLines(paragraphs: seq<string>)
    requires |paragraphs| >= 1
    requires forall i :: 0 <= i < |paragraphs| ==> '\n' !in paragraphs[i]
    ensures Split(ParseDocx(paragraphs), '\n') == paragraphs
  {
    SplitJoin(paragraphs, '\n');
  }
}
