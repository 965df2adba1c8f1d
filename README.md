# ExonaScope ingestion core in Dafny

ExonaScope is a single-session tool for case documents. A user logs in against a
static credential table and uploads PDFs, DOCX files, audio and video. Each file
is turned into text: the PDF text layer, OCR when that layer is empty, DOCX
paragraphs, or an AssemblyAI transcription (video goes through ffmpeg first).
Every file with non-blank text becomes a segment labelled with the file's name.
The segments, joined by blank lines, form the corpus that is sent to a language
model.

This project models the decision logic of `main_full_final_exonascope.py` and
proves its properties:

- `text.dfy` (module `Text`) holds the Python string operations the code relies
  on. These are `str.isspace`/`str.strip` with Python's full whitespace set,
  `str.join`, `+=` accumulation, and `in` on strings. `Split` is Python's
  one-character `str.split`. The code never calls it; it is defined here as
  the inverse of the join at line 76, to state that the lines of
  `parse_docx`'s result are its paragraphs. The module proves the layout of a
  join, the round trips between split and join, and that `strip()` is empty
  exactly for whitespace-only strings.
- `streams.dfy` (module `Streams`) has a `Stream` class with a read position,
  where `read()` consumes to the end and `seek()` moves the position. It also
  has `Library<T> = Ok(value) | Exn`, the result of a call into foreign code.
- `extractors.dfy` (module `Extractors`) holds `parse_pdf_text`,
  `run_ocr_on_pdf` (a method with the accumulation loop) and `parse_docx`.
- `transcription.dfy` (module `Transcription`) holds the status-polling loop
  over a finite sequence of responses, `transcribe_with_assemblyai` and
  `extract_audio_from_video`.
- `dispatch.dfy` (module `Dispatch`) holds MIME-type routing, the `try` block
  for one file, the loop over the uploads and the corpus join.
- `auth.dfy` (module `Auth`) holds the credential table and the login flag.

The foreign libraries are fields of a `Libraries` record: fitz, pdf2image with
pytesseract, python-docx, ffmpeg, and AssemblyAI's upload, submit and status
endpoints. Each field is an arbitrary total function from the bytes it is handed
to `Ok(result)` or `Exn`. Because the oracles take bytes, the model shows the
effect of `file.seek(0)`: the OCR pass gets the whole file again, not the empty
remainder after the first `read()`.

The code never removes the temporary file of `transcribe_with_assemblyai`, and
`extract_audio_from_video` removes its two files only on success. The model
claims nothing about cleanup.

## Model

| member | source | states |
|---|---|---|
| `Text.StripEmptyIffBlank` | main_full_final_exonascope.py:134 | `parsed.strip()` is empty exactly when every character of `parsed` is Python whitespace |
| `Text.TrimStart` | main_full_final_exonascope.py:123 | the left half of `strip()`: the result is a suffix of the input, everything dropped is whitespace, and the result starts with a non-space character or is empty |
| `Text.TrimEnd` | main_full_final_exonascope.py:123 | the right half of `strip()`: the result is a prefix of the input, everything dropped is whitespace, and the result ends with a non-space character or is empty |
| `Text.JoinAt` | main_full_final_exonascope.py:66 | every part of a `sep.join(parts)` appears verbatim at its offset, in order |
| `Text.JoinSeparatorAt` | main_full_final_exonascope.py:145 | between two consecutive parts of a join stands exactly one separator |
| `Text.JoinLength` | main_full_final_exonascope.py:145 | a join ends with its last part: its length is the last part's offset plus that part's length |
| `Text.BlankJoin` | main_full_final_exonascope.py:66 | with a whitespace separator, a join is whitespace-only iff every part is |
| `Text.ConcatCons` | main_full_final_exonascope.py:71-72 | text accumulated with `+=` is the first part followed by the accumulation of the rest |
| `Text.ConcatIsJoinEmpty` | main_full_final_exonascope.py:70-73 | accumulating with `+=` equals joining with the empty separator |
| `Text.Split` | main_full_final_exonascope.py:76 | inverse of the line-76 join, not called by the code: `s.split(c)` has at least one piece and no piece contains `c` |
| `Text.SplitJoin` | main_full_final_exonascope.py:76 | inverse of the line-76 join, not called by the code: splitting on `c` recovers a non-empty list of parts joined by `c`, provided no part contains `c` |
| `Text.JoinSplit` | main_full_final_exonascope.py:76 | inverse of the line-76 join, not called by the code: joining the pieces of `s.split(c)` with `c` gives back `s`, for every `s` |
| `Text.SplitFront` | main_full_final_exonascope.py:76 | inverse of the line-76 join, not called by the code: splitting `p + c + rest` gives `p` followed by the pieces of `rest` when `c` is not in `p` |
| `Text.SplitWhole` | main_full_final_exonascope.py:76 | inverse of the line-76 join, not called by the code: a string without the separator splits into itself alone |
| `Text.ContainsIff` | main_full_final_exonascope.py:121 | the substring test `needle in hay` is true iff `needle` occurs at some index of `hay` |
| `Text.ContainsFinds` | main_full_final_exonascope.py:121 | an occurrence at any index makes the substring test succeed |
| `Text.NotContainsChar` | main_full_final_exonascope.py:121 | the substring test fails when some character of the needle is absent from `hay` |
| `Streams.Stream.Read` | main_full_final_exonascope.py:65 | `read()` returns the bytes from the position to the end and leaves the position at the end |
| `Streams.Stream.Seek` | main_full_final_exonascope.py:125 | `seek(p)` sets the read position to `p` |
| `Streams.Stream.Remaining` | main_full_final_exonascope.py:125-126 | from position 0 the stream yields all its bytes; at or past the end it yields none |
| `Extractors.NonEmptyPages` | main_full_final_exonascope.py:66 | the comprehension's filter keeps only non-empty page texts, and keeps every non-empty one |
| `Extractors.NonEmptyPagesAppend` | main_full_final_exonascope.py:66 | the filter preserves page order: pages kept from `a + b` are those kept from `a`, then from `b` |
| `Extractors.PdfTextBlankIff` | main_full_final_exonascope.py:122-123 | the direct PDF text is whitespace-only iff every page's text layer is whitespace-only |
| `Extractors.ParsePdfTextHasPage` | main_full_final_exonascope.py:64-66 | each kept page text appears verbatim in `parse_pdf_text`'s result at its offset, in page order |
| `Extractors.RunOcrOnPdf` | main_full_final_exonascope.py:68-73 | the loop returns the per-page OCR strings concatenated in page order with no separator; the invariant is that `text` is the concatenation of the pages seen so far |
| `Extractors.ParseDocxLines` | main_full_final_exonascope.py:75-76 | for one or more paragraphs none of which holds a newline (`"".split("\n")` is `[""]`, so an empty list is excluded), the lines of `parse_docx`'s result are exactly the paragraphs, in order, with empty ones kept |
| `Transcription.FirstTerminal` | main_full_final_exonascope.py:95-97 | the index returned is the first `completed` or `error` response: all earlier ones are non-terminal |
| `Transcription.PollTranscript` | main_full_final_exonascope.py:93-99 | the loop returns the `text` of the first terminal response when it is `completed`, the sentinel `"[Error in transcription]"` when it is `error`, and makes exactly one request per response up to and including that one |
| `Transcription.FinishedIffTerminalSeen` | main_full_final_exonascope.py:93-98 | polling finishes iff some response is `completed` or `error` |
| `Transcription.PendingPrefixIgnored` | main_full_final_exonascope.py:93-99 | any number of non-terminal statuses before the responses only delay the outcome, which stays the same |
| `Transcription.LaterResponsesIgnored` | main_full_final_exonascope.py:93-98 | once a terminal response has arrived, later responses never change the outcome |
| `Transcription.TranscribeWithAssemblyAI` | main_full_final_exonascope.py:78-99 | the file is read from its position; an exception from the service gives `Exn`, otherwise the result is the polling outcome over the service's responses for exactly those bytes |
| `Transcription.ExtractAudioFromVideo` | main_full_final_exonascope.py:101-111 | a failing ffmpeg gives `Exn`; otherwise the audio track ffmpeg produced is transcribed |
| `Dispatch.RoutePriority` | main_full_final_exonascope.py:121-132 | exactly one route is chosen: pdf iff "pdf" occurs in the type, word iff "word" occurs and "pdf" does not, and so on for audio and video; no route iff none of the four occurs |
| `Dispatch.PdfMimeType` | main_full_final_exonascope.py:121 | example: `application/pdf` takes the PDF route |
| `Dispatch.Mp3MimeType` | main_full_final_exonascope.py:129 | example: `audio/mpeg` takes the audio route |
| `Dispatch.Mp4MimeType` | main_full_final_exonascope.py:131 | example: `video/mp4` takes the video route |
| `Dispatch.Extract` | main_full_final_exonascope.py:119-132 | for a fresh upload the `try` block's extraction equals `ExtractionOf` on the file's bytes; the OCR oracle is handed the whole file because of the rewind |
| `Dispatch.OcrIffNoEmbeddedText` | main_full_final_exonascope.py:122-126 | OCR runs iff the file takes the PDF route, the text layer was read without an exception, and every page of it is empty or whitespace-only |
| `Dispatch.PdfOutcome` | main_full_final_exonascope.py:121-126 | a PDF with a non-blank page keeps its direct text unchanged; otherwise the result is the OCR strings joined with no separator, or a failure if OCR raised |
| `Dispatch.ProcessFiles` | main_full_final_exonascope.py:114-141 | the loop over the uploads ends in the state `BatchOf` gives for the files' contents, in upload order |
| `Dispatch.BatchSnoc` | main_full_final_exonascope.py:134-139 | proof helper: processing one more file applies exactly one loop step to the state so far |
| `Dispatch.StepPrefix` | main_full_final_exonascope.py:134-139 | proof helper: a loop step only appends to the segments and reports it is given |
| `Dispatch.StalledStops` | main_full_final_exonascope.py:93-99 | once a transcription stays pending, no later file is processed |
| `Dispatch.BatchAppend` | main_full_final_exonascope.py:116-141 | two runs of files: the second run's segments and reports follow the first's, in upload order, unless the first run stalled |
| `Dispatch.FileWithoutTextIsolated` | main_full_final_exonascope.py:119-141 | a file that raises, or whose text is whitespace-only, adds an error or a warning and no segment, and the other files are processed as if it were absent |
| `Dispatch.FileWithTextAdded` | main_full_final_exonascope.py:134-135 | a file with non-blank text adds exactly `"[" + name + "]\n" + text`, between the segments of the files before and after it |
| `Dispatch.BatchFinishedIff` | main_full_final_exonascope.py:116-141 | the loop runs to the end iff no file's transcription stays pending, and then there is exactly one report per file |
| `Dispatch.Corpus` | main_full_final_exonascope.py:144-145 | a corpus is built iff the loop over the uploads has returned and there is at least one segment |
| `Dispatch.CorpusLayout` | main_full_final_exonascope.py:145 | every segment appears verbatim in the corpus, in order, with exactly `"\n\n"` between consecutive segments, and the corpus ends with the last segment |
| `Auth.AcceptedPairs` | main_full_final_exonascope.py:16-20 | exactly the three listed user names get in, each only with its own password |
| `Auth.Session.constructor` | main_full_final_exonascope.py:22-23 | a new session starts unauthenticated |
| `Auth.Session.Login` | main_full_final_exonascope.py:29-33 | login succeeds iff the name is a key of `CREDENTIALS` and its password equals the one entered; success sets the flag and failure leaves it as it was |

## Left out

- The Streamlit UI is left out. This covers titles, forms, the case name and number, previews and the 1500-character preview slice, expanders, messages, `st.stop`, `session_state.clear()` and `experimental_rerun`. The warnings and errors appear only as the `Report` recorded for each file.
- The login gate does not control the model's flow. `st.stop()` halting an unauthenticated script is framework control flow, so only the flag and its update are modelled.
- The "Generate Fact Pattern" button press is not modelled. `Dispatch.Corpus` builds the corpus whenever the loop has returned and there are segments.
- The HTTP requests to AssemblyAI are not modelled one by one. The upload, submit and status requests are one oracle that returns the status responses or raises. `time.sleep(3)` is timing and is left out.
- Polling has no bound in the code. The model polls over a finite sequence of responses. When they run out, the job counts as still pending: that file's outcome is `Stalled`, and the batch stops with `finished` false. The real script never returns in that case.
- ffmpeg, temporary files and `os.remove` are process and filesystem work. ffmpeg is an oracle from video bytes to audio bytes or an exception. The model claims nothing about cleanup.
- Each library oracle is a total function of the bytes it is handed. So two uploads with the same bytes always get the same outcome, and a transient failure, such as a network error on only one of them, cannot be expressed.
- The internals of fitz, pdf2image, pytesseract and python-docx are foreign code. Each is an oracle that returns the page or paragraph strings or raises.
- `page.get_text()` is called twice per page by the comprehension. The model assumes both calls return the same text.
- python-docx opens the upload as a zip archive and seeks by itself. The model hands it the file's whole content.
- A `completed` response whose `text` is JSON null is not modelled, although `parsed.strip()` would then raise. Response texts are strings here.
- The OpenAI call, the prompt f-string around the corpus and the generated `.docx` are left out. They are a remote call and document writing.
- The unused `ext` variable is left out.
- The concrete route of the DOCX MIME type is not proved as its own lemma. It is covered only by `Dispatch.RoutePriority`, since the substring search over that long literal is too costly for the verifier.
