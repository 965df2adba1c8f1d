/** The file-processing loop of main_full_final_exonascope.py: every uploaded
    file, in upload order, is routed by its declared MIME type to one
    extractor; a file whose extracted text is not whitespace-only adds a
    segment labelled with its name, any other file only a warning, and an
    exception raised while extracting a file is reported and the loop goes on.
    The segments joined by blank lines form the corpus handed to the language
    model. */
module Dispatch {
  import opened Text
  import opened Streams
  import opened Extractors
  import opened Transcription

  /** The foreign code each extraction path calls, as a function of the bytes
      it is handed. */
  datatype Libraries = Libraries(
    pageTexts: seq<bv8> -> Library<seq<string>>,         // fitz: `page.get_text()` of every page
    ocrPages: seq<bv8> -> Library<seq<string>>,          // pdf2image at 300 dpi, then pytesseract per page image
    paragraphs: seq<bv8> -> Library<seq<string>>,        // python-docx: `p.text` of every paragraph
    ffmpeg: seq<bv8> -> Library<seq<bv8>>,               // the audio track as 16-bit 16 kHz mono PCM
    assemblyAI: seq<bv8> -> Library<seq<PollResponse>>)  // upload, submit, then the status responses

  /** An uploaded file: its name, its declared MIME type and its byte stream. */
  datatype Upload = Upload(name: string, mimeType: string, body: Stream)

  /** The immutable part of an upload, on which the outcome depends. */
  datatype Document = Document(name: string, mimeType: string, data: seq<bv8>)

  function Snapshot(u: Upload): Document {
    Document(u.name, u.mimeType, u.body.data)
  }

  function Snapshots(files: seq<Upload>): (docs: seq<Document>)
    ensures |docs| == |files|
    ensures forall i :: 0 <= i < |files| ==> docs[i] == Snapshot(files[i])
  {
    seq(|files|, i requires 0 <= i < |files| => Snapshot(files[i]))
  }

  /** The extractor a MIME type selects. */
  datatype Route = PdfRoute | WordRoute | AudioRoute | VideoRoute | NoRoute

  /** The `if`/`elif` chain on `file.type`: substring tests in the order pdf,
      word, audio, video. */
  function RouteOf(mimeType: string): Route {
    if Contains(mimeType, "pdf") then PdfRoute
    else if Contains(mimeType, "word") then WordRoute
    else if Contains(mimeType, "audio") then AudioRoute
    else if Contains(mimeType, "video") then VideoRoute
    else NoRoute
  }

  /** Each route is taken exactly when its keyword occurs in the MIME type and
      no keyword of higher priority does. */
  lemma RoutePriority(mimeType: string)
    ensures RouteOf(mimeType) == PdfRoute <==> Occurs(mimeType, "pdf")
    ensures RouteOf(mimeType) == WordRoute <==> !Occurs(mimeType, "pdf") && Occurs(mimeType, "word")
    ensures RouteOf(mimeType) == AudioRoute <==>
      !Occurs(mimeType, "pdf") && !Occurs(mimeType, "word") && Occurs(mimeType, "audio")
    ensures RouteOf(mimeType) == VideoRoute <==>
      !Occurs(mimeType, "pdf") && !Occurs(mimeType, "word") && !Occurs(mimeType, "audio")
      && Occurs(mimeType, "video")
    ensures RouteOf(mimeType) == NoRoute <==>
      !Occurs(mimeType, "pdf") && !Occurs(mimeType, "word") && !Occurs(mimeType, "audio")
      && !Occurs(mimeType, "video")
  {
    ContainsIff(mimeType, "pdf");
    ContainsIff(mimeType, "word");
    ContainsIff(mimeType, "audio");
    ContainsIff(mimeType, "video");
  }

  /** The MIME type of a PDF upload takes the PDF route. */
  lemma PdfMimeType(mimeType: string)
    requires mimeType == "application/pdf"
    ensures RouteOf(mimeType) == PdfRoute
  {
    assert mimeType[12..15] == "pdf";
    ContainsFinds(mimeType, "pdf", 12);
  }

  /** The MIME type of an mp3 upload takes the audio route. */
  lemma Mp3MimeType(mimeType: string)
    requires mimeType == "audio/mpeg"
    ensures RouteOf(mimeType) == AudioRoute
  {
    assert 'f' !in mimeType && 'w' !in mimeType;
    NotContainsChar(mimeType, "pdf", 2);
    NotContainsChar(mimeType, "word", 0);
    assert mimeType[..5] == "audio";
    ContainsFinds(mimeType, "audio", 0);
  }

  /** The MIME type of an mp4 upload takes the video route. */
  lemma Mp4MimeType(mimeType: string)
    requires mimeType == "video/mp4"
    ensures RouteOf(mimeType) == VideoRoute
  {
    assert 'f' !in mimeType && 'w' !in mimeType && 'a' !in mimeType;
    NotContainsChar(mimeType, "pdf", 2);
    NotContainsChar(mimeType, "word", 0);
    NotContainsChar(mimeType, "audio", 0);
    assert mimeType[..5] == "video";
    ContainsFinds(mimeType, "video", 0);
  }

  /** The extraction path a file went through. */
  datatype Path = DirectText | OcrFallback | DocxParagraphs | TranscribeAudio | DemuxThenTranscribe | NoExtraction

  /** How the `try` block ends for a file: with the text bound to `parsed`, with
      an exception, or never (a transcription job that stays pending keeps the
      polling loop, and so the whole script, running). */
  datatype Outcome = Parsed(text: string) | Failed | Stalled

  datatype Extraction = Extraction(path: Path, outcome: Outcome)

  function FromLibrary(r: Library<string>): Outcome {
    match r
    case Exn => Failed
    case Ok(text) => Parsed(text)
  }

  function FromPoll(r: Library<PollResult>): Outcome {
    match r
    case Exn => Failed
    case Ok(StillPending) => Stalled
    case Ok(Finished(text)) => Parsed(text)
  }

  /** What the `try` block computes for one file. */
  function ExtractionOf(d: Document, libs: Libraries): Extraction {
    match RouteOf(d.mimeType)
    case PdfRoute =>
      (match libs.pageTexts(d.data)
       case Exn => Extraction(DirectText, Failed)
       case Ok(pages) =>
         var direct := ParsePdfText(pages);
         if Strip(direct) != "" then Extraction(DirectText, Parsed(direct))
         else
           Extraction(OcrFallback, match libs.ocrPages(d.data)
                                   case Exn => Failed
                                   case Ok(images) => Parsed(Concat(images))))
    case WordRoute =>
      Extraction(DocxParagraphs, match libs.paragraphs(d.data)
                                 case Exn => Failed
                                 case Ok(ps) => Parsed(ParseDocx(ps)))
    case AudioRoute =>
      Extraction(TranscribeAudio, FromPoll(TranscribeBytes(libs.assemblyAI, d.data)))
    case VideoRoute =>
      Extraction(DemuxThenTranscribe, FromPoll(DemuxAndTranscribe(libs.ffmpeg, libs.assemblyAI, d.data)))
    case NoRoute =>
      Extraction(NoExtraction, Parsed(""))
  }

  /** The `try` block's extraction for one fresh upload. The PDF path rewinds
      the stream before the OCR pass, so OCR sees the whole file again. */
  method Extract(u: Upload, libs: Libraries) returns (e: Extraction)
    requires u.body.pos == 0
    modifies u.body
    ensures e == ExtractionOf(Snapshot(u), libs)
  {
    var route := RouteOf(u.mimeType);
    if route == PdfRoute {
      var bytes := u.body.Read();
      match libs.pageTexts(bytes)
      case Exn =>
        e := Extraction(DirectText, Failed);
      case Ok(pages) =>
        var parsed := ParsePdfText(pages);
        if Strip(parsed) == "" {
          u.body.Seek(0);
          var again := u.body.Read();
          match libs.ocrPages(again)
          case Exn =>
            e := Extraction(OcrFallback, Failed);
          case Ok(images) =>
            var text := RunOcrOnPdf(images);
            e := Extraction(OcrFallback, Parsed(text));
        } else {
          e := Extraction(DirectText, Parsed(parsed));
        }
    } else if route == WordRoute {
      match libs.paragraphs(u.body.data)
      case Exn =>
        e := Extraction(DocxParagraphs, Failed);
      case Ok(ps) =>
        e := Extraction(DocxParagraphs, Parsed(ParseDocx(ps)));
    } else if route == AudioRoute {
      var r := TranscribeWithAssemblyAI(u.body, libs.assemblyAI);
      e := Extraction(TranscribeAudio, FromPoll(r));
    } else if route == VideoRoute {
      var r := ExtractAudioFromVideo(u.body, libs.ffmpeg, libs.assemblyAI);
      e := Extraction(DemuxThenTranscribe, FromPoll(r));
    } else {
      e := Extraction(NoExtraction, Parsed(""));
    }
  }

  /** OCR runs exactly for a PDF whose text layer was read without an exception
      and whose every page is empty or whitespace-only. */
  lemma OcrIffNoEmbeddedText(d: Document, libs: Libraries)
    ensures ExtractionOf(d, libs).path == OcrFallback <==>
      RouteOf(d.mimeType) == PdfRoute && libs.pageTexts(d.data).Ok?
      && forall i :: 0 <= i < |libs.pageTexts(d.data).value| ==> Blank(libs.pageTexts(d.data).value[i])
  {
    if RouteOf(d.mimeType) == PdfRoute && libs.pageTexts(d.data).Ok? {
      var pages := libs.pageTexts(d.data).value;
      PdfTextBlankIff(pages);
      StripEmptyIffBlank(ParsePdfText(pages));
    }
  }

  /** A PDF with some non-blank page keeps its direct text unchanged and never
      reaches OCR; a PDF without one yields exactly the OCR text. */
  lemma PdfOutcome(d: Document, libs: Libraries)
    requires RouteOf(d.mimeType) == PdfRoute && libs.pageTexts(d.data).Ok?
    ensures var pages := libs.pageTexts(d.data).value;
      if exists i :: 0 <= i < |pages| && !Blank(pages[i]) then
        ExtractionOf(d, libs) == Extraction(DirectText, Parsed(ParsePdfText(pages)))
      else
        ExtractionOf(d, libs).outcome == FromLibrary(
          match libs.ocrPages(d.data) case Exn => Exn case Ok(images) => Ok(Join(images, "")))
  {
    var pages := libs.pageTexts(d.data).value;
    PdfTextBlankIff(pages);
    StripEmptyIffBlank(ParsePdfText(pages));
    if libs.ocrPages(d.data).Ok? {
      ConcatIsJoinEmpty(libs.ocrPages(d.data).value);
    }
  }

  /** What the loop shows for a file it finishes. */
  datatype Report = SegmentAdded | NothingExtractable | ErrorShown

  /** The segments collected so far, one report per finished file, and whether
      the loop is still running (false once a transcription never finishes). */
  datatype Batch = Batch(segments: seq<string>, reports: seq<Report>, finished: bool)

  /** The labelled segment `f"[{file.name}]\n{parsed}"`. */
  function Label(name: string, text: string): string {
    "[" + name + "]\n" + text
  }

  /** One pass of the loop body for a file named `name` whose `try` block ended
      with `outcome`. */
  function Step(b: Batch, name: string, outcome: Outcome): Batch {
    match outcome
    case Stalled => Batch(b.segments, b.reports, false)
    case Failed => Batch(b.segments, b.reports + [ErrorShown], b.finished)
    case Parsed(text) =>
      if Strip(text) != "" then Batch(b.segments + [Label(name, text)], b.reports + [SegmentAdded], b.finished)
      else Batch(b.segments, b.reports + [NothingExtractable], b.finished)
  }

  /** How the `try` block ends for each file, under the given libraries. */
  function OutcomeOf(libs: Libraries): Document -> Outcome {
    d => ExtractionOf(d, libs).outcome
  }

  /** The state of the loop after the files `docs`, in upload order, when the
      `try` block for a file `d` ends with `outcomeOf(d)`. */
  function BatchOf(docs: seq<Document>, outcomeOf: Document -> Outcome): Batch {
    if docs == [] then Batch([], [], true)
    else
      var b := BatchOf(docs[..|docs| - 1], outcomeOf);
      var d := docs[|docs| - 1];
      if b.finished then Step(b, d.name, outcomeOf(d)) else b
  }

  /** The loop over `uploaded_files`. Each file is extracted inside its own
      `try`: an exception only adds an error report. When a transcription never
      finishes the real loop never returns; here the loop stops there with
      `finished` false. */
  method ProcessFiles(files: seq<Upload>, libs: Libraries) returns (b: Batch)
    requires forall i :: 0 <= i < |files| ==> files[i].body.pos == 0
    requires forall i, j :: 0 <= i < j < |files| ==> files[i].body != files[j].body
    modifies set i | 0 <= i < |files| :: files[i].body
    ensures b == BatchOf(Snapshots(files), OutcomeOf(libs))
  {
    ghost var docs := Snapshots(files);
    b := Batch([], [], true);
    var i := 0;
    while i < |files|
      invariant 0 <= i <= |files|
      invariant b == BatchOf(docs[..i], OutcomeOf(libs)) && b.finished
      invariant forall j :: i <= j < |files| ==> files[j].body.pos == 0
    {
      BatchSnoc(docs, i, OutcomeOf(libs));
      var e := Extract(files[i], libs);
      match e.outcome {
        case Stalled =>
          b := Batch(b.segments, b.reports, false);
          StalledStops(docs, i + 1, OutcomeOf(libs));
          return;
        case Failed =>
          b := Batch(b.segments, b.reports + [ErrorShown], b.finished);
        case Parsed(parsed) =>
          if Strip(parsed) != "" {
            b := Batch(b.segments + [Label(files[i].name, parsed)], b.reports + [SegmentAdded], b.finished);
          } else {
            b := Batch(b.segments, b.reports + [NothingExtractable], b.finished);
          }
      }
      i := i + 1;
    }
    assert docs[..i] == docs;
  }

  /** One more file: the loop state after `docs[..i + 1]`. */
  lemma BatchSnoc(docs: seq<Document>, i: nat, outcomeOf: Document -> Outcome)
    requires i < |docs|
    ensures var b := BatchOf(docs[..i], outcomeOf);
      BatchOf(docs[..i + 1], outcomeOf) == if b.finished then Step(b, docs[i].name, outcomeOf(docs[i])) else b
  {
    assert docs[..i + 1][..i] == docs[..i];
  }

  /** Once the loop is stuck, the files after that point change nothing. */
  lemma StalledStops(docs: seq<Document>, i: nat, outcomeOf: Document -> Outcome)
    requires i <= |docs| && !BatchOf(docs[..i], outcomeOf).finished
    ensures BatchOf(docs, outcomeOf) == BatchOf(docs[..i], outcomeOf)
  {
    assert docs[..i] + docs[i..] == docs;
    BatchAppend(docs[..i], docs[i..], outcomeOf);
  }

  /** The loop over two runs of files: if the first run finishes, the second
      one's segments and reports follow the first's, in upload order; if it
      does not, nothing after it is processed. */
  lemma {:induction false} BatchAppend(a: seq<Document>, c: seq<Document>, outcomeOf: Document -> Outcome)
    ensures var ba, bc := BatchOf(a, outcomeOf), BatchOf(c, outcomeOf);
      BatchOf(a + c, outcomeOf) == if ba.finished then Batch(ba.segments + bc.segments, ba.reports + bc.reports, bc.finished) else ba
    decreases |c|
  {
    if c == [] {
      assert a + c == a;
    } else {
      var init, d := c[..|c| - 1], c[|c| - 1];
      BatchAppend(a, init, outcomeOf);
      assert (a + c)[..|a + c| - 1] == a + init;
      assert (a + c)[|a + c| - 1] == d;
      var ba, bi := BatchOf(a, outcomeOf), BatchOf(init, outcomeOf);
      if ba.finished && bi.finished {
        StepPrefix(ba.segments, ba.reports, bi, d.name, outcomeOf(d));
      }
    }
  }

  /** A loop step only appends to what came before it. */
  lemma StepPrefix(segments: seq<string>, reports: seq<Report>, b: Batch, name: string, outcome: Outcome)
    ensures var s := Step(b, name, outcome);
      Step(Batch(segments + b.segments, reports + b.reports, b.finished), name, outcome)
      == Batch(segments + s.segments, reports + s.reports, s.finished)
  {
    match outcome
    case Stalled =>
    case Failed =>
      assert (reports + b.reports) + [ErrorShown] == reports + (b.reports + [ErrorShown]);
    case Parsed(text) =>
      assert (reports + b.reports) + [SegmentAdded] == reports + (b.reports + [SegmentAdded]);
      assert (reports + b.reports) + [NothingExtractable] == reports + (b.reports + [NothingExtractable]);
      assert (segments + b.segments) + [Label(name, text)] == segments + (b.segments + [Label(name, text)]);
  }

  /** A file that yields no non-blank text (it raised, or its text is
      whitespace-only) adds a warning or an error and no segment; the other
      files are processed exactly as if it had not been uploaded. */
  lemma FileWithoutTextIsolated(a: seq<Document>, d: Document, c: seq<Document>, outcomeOf: Document -> Outcome)
    requires BatchOf(a, outcomeOf).finished
    requires outcomeOf(d) == Failed
          || (outcomeOf(d).Parsed? && Blank(outcomeOf(d).text))
    ensures BatchOf(a + [d] + c, outcomeOf).segments == BatchOf(a + c, outcomeOf).segments
    ensures BatchOf(a + [d] + c, outcomeOf).finished == BatchOf(a + c, outcomeOf).finished
    ensures BatchOf(a + [d] + c, outcomeOf).reports ==
      BatchOf(a, outcomeOf).reports
      + [if outcomeOf(d) == Failed then ErrorShown else NothingExtractable]
      + BatchOf(c, outcomeOf).reports
  {
    if outcomeOf(d).Parsed? {
      StripEmptyIffBlank(outcomeOf(d).text);
    }
    assert [d][..0] == [];
    BatchAppend(a, [d], outcomeOf);
    BatchAppend(a + [d], c, outcomeOf);
    BatchAppend(a, c, outcomeOf);
  }

  /** A file with non-blank text adds exactly its labelled segment, between the
      segments of the files before and after it. */
  lemma FileWithTextAdded(a: seq<Document>, d: Document, c: seq<Document>, outcomeOf: Document -> Outcome)
    requires BatchOf(a, outcomeOf).finished
    requires outcomeOf(d).Parsed? && !Blank(outcomeOf(d).text)
    ensures BatchOf(a + [d] + c, outcomeOf).segments ==
      BatchOf(a, outcomeOf).segments + [Label(d.name, outcomeOf(d).text)] + BatchOf(c, outcomeOf).segments
    ensures BatchOf(a + [d] + c, outcomeOf).reports == BatchOf(a, outcomeOf).reports + [SegmentAdded] + BatchOf(c, outcomeOf).reports
  {
    StripEmptyIffBlank(outcomeOf(d).text);
    assert [d][..0] == [];
    BatchAppend(a, [d], outcomeOf);
    BatchAppend(a + [d], c, outcomeOf);
  }

  /** The loop runs to the end exactly when no file's transcription stays
      pending, and then it has one report per file. */
  lemma {:induction false} BatchFinishedIff(docs: seq<Document>, outcomeOf: Document -> Outcome)
    ensures BatchOf(docs, outcomeOf).finished <==>
      forall i :: 0 <= i < |docs| ==> outcomeOf(docs[i]) != Stalled
    ensures BatchOf(docs, outcomeOf).finished ==> |BatchOf(docs, outcomeOf).reports| == |docs|
  {
    if docs != [] {
      var init := docs[..|docs| - 1];
      BatchFinishedIff(init, outcomeOf);
      assert forall i :: 0 <= i < |init| ==> init[i] == docs[i];
    }
  }

  /** The corpus `"\n\n".join(parsed_segments)`, built only once the loop over
      the uploads has returned and there is at least one segment. */
  function Corpus(b: Batch): (c: Option<string>)
    ensures c.Some? <==> b.finished && b.segments != []
  {
    if !b.finished || b.segments == [] then None else Some(Join(b.segments, "\n\n"))
  }

  datatype Option<T> = None | Some(value: T)

  /** Every segment stands verbatim in the corpus at its offset, in order,
      consecutive segments are separated by one blank line, and the corpus ends
      with the last segment. */
  lemma CorpusLayout(b: Batch, i: nat)
    requires b.finished && i < |b.segments|
    ensures Corpus(b).Some?
    ensures var corpus, o := Corpus(b).value, Offset(b.segments, "\n\n", i);
      o + |b.segments[i]| <= |corpus| && corpus[o..o + |b.segments[i]|] == b.segments[i]
    ensures i + 1 < |b.segments| ==>
      var corpus, o := Corpus(b).value, Offset(b.segments, "\n\n", i);
      Offset(b.segments, "\n\n", i + 1) == o + |b.segments[i]| + 2 <= |corpus|
      && corpus[o + |b.segments[i]|..o + |b.segments[i]| + 2] == "\n\n"
    ensures i + 1 == |b.segments| ==>
      |Corpus(b).value| == Offset(b.segments, "\n\n", i) + |b.segments[i]|
  {
    JoinAt(b.segments, "\n\n", i);
    if i + 1 < |b.segments| {
      JoinSeparatorAt(b.segments, "\n\n", i);
    }
    JoinLength(b.segments, "\n\n");
  }
}
