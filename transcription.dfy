/** The polling loop of `transcribe_with_assemblyai`: after the audio is
    uploaded and the job submitted, the job's status is fetched again and again
    until it is `completed` (the transcript is returned) or `error` (a fixed
    sentinel string is returned). The responses of the status endpoint are an
    input sequence here; running out of responses means the job is still
    pending. */
module Transcription {
  import opened Streams

  /** One response of the job-status endpoint: its `status` and `text` fields. */
  datatype PollResponse = PollResponse(status: string, text: string)

  /** The string returned for a job the service reports as failed. */
  const ErrorSentinel: string := "[Error in transcription]"

  /** What the polling loop ends with. `StillPending` stands for a loop that
      has not returned after the given responses. */
  datatype PollResult = Finished(text: string) | StillPending

  /** A response at which the loop returns. */
  predicate IsTerminal(r: PollResponse) {
    r.status == "completed" || r.status == "error"
  }

  /** The index of the first terminal response, or `|responses|` when none is. */
  function FirstTerminal(responses: seq<PollResponse>): (k: nat)
    ensures k <= |responses|
    ensures forall j :: 0 <= j < k ==> !IsTerminal(responses[j])
    ensures k < |responses| ==> IsTerminal(responses[k])
  {
    if responses == [] then 0
    else if IsTerminal(responses[0]) then 0
    else 1 + FirstTerminal(responses[1..])
  }

  /** The outcome of polling through `responses`: decided by the first
      terminal response alone. */
  function TranscriptOf(responses: seq<PollResponse>): PollResult {
    var k := FirstTerminal(responses);
    if k == |responses| then StillPending
    else if responses[k].status == "completed" then Finished(responses[k].text)
    else Finished(ErrorSentinel)
  }

  /** The `while True` loop: fetch the next status; return the text on
      `completed`, the sentinel on `error`, otherwise poll again. `polls`
      counts the status requests made, so no response after the first
      terminal one is consulted. */
  method PollTranscript(responses: seq<PollResponse>) returns (result: PollResult, polls: nat)
    ensures result == TranscriptOf(responses)
    ensures polls == if FirstTerminal(responses) < |responses| then FirstTerminal(responses) + 1 else |responses|
  {
    var i := 0;
    while i < |responses|
      invariant 0 <= i <= |responses|
      invariant forall j :: 0 <= j < i ==> !IsTerminal(responses[j])
    {
      var poll := responses[i];
      if poll.status == "completed" {
        return Finished(poll.text), i + 1;
      } else if poll.status == "error" {
        return Finished(ErrorSentinel), i + 1;
      }
      i := i + 1;
    }
    return StillPending, |responses|;
  }

  /** Polling ends exactly when some response is terminal. */
  lemma {:induction false} FinishedIffTerminalSeen(responses: seq<PollResponse>)
    ensures TranscriptOf(responses).Finished? <==> exists k :: 0 <= k < |responses| && IsTerminal(responses[k])
  {
    if exists k :: 0 <= k < |responses| && IsTerminal(responses[k]) {
      var k :| 0 <= k < |responses| && IsTerminal(responses[k]);
      assert FirstTerminal(responses) <= k;
    }
  }

  /** Non-terminal statuses (`queued`, `processing`, anything else) only delay
      the outcome: prefixing any number of them changes nothing. */
  lemma {:induction false} PendingPrefixIgnored(pending: seq<PollResponse>, rest: seq<PollResponse>)
    requires forall j :: 0 <= j < |pending| ==> !IsTerminal(pending[j])
    ensures FirstTerminal(pending + rest) == |pending| + FirstTerminal(rest)
    ensures TranscriptOf(pending + rest) == TranscriptOf(rest)
  {
    if pending != [] {
      assert (pending + rest)[1..] == pending[1..] + rest;
      PendingPrefixIgnored(pending[1..], rest);
    } else {
      assert pending + rest == rest;
    }
  }

  /** Once a terminal response has arrived, whatever the service would answer
      afterwards is never consulted. */
  lemma {:induction false} LaterResponsesIgnored(responses: seq<PollResponse>, later: seq<PollResponse>)
    requires FirstTerminal(responses) < |responses|
    ensures FirstTerminal(responses + later) == FirstTerminal(responses)
    ensures TranscriptOf(responses + later) == TranscriptOf(responses)
  {
    if !IsTerminal(responses[0]) {
      assert (responses + later)[1..] == responses[1..] + later;
      LaterResponsesIgnored(responses[1..], later);
    }
  }

  /** What a whole `transcribe_with_assemblyai` call yields for `audio`, given
      the service: an exception from the upload, submit or status requests, or
      the outcome of polling through the status responses. */
  function TranscribeBytes(service: seq<bv8> -> Library<seq<PollResponse>>, audio: seq<bv8>): Library<PollResult> {
    match service(audio)
    case Exn => Exn
    case Ok(responses) => Ok(TranscriptOf(responses))
  }

  /** `transcribe_with_assemblyai(file, suffix)`: read the file from its
      position, upload those bytes, submit the job and poll it. */
  method TranscribeWithAssemblyAI(file: Stream, service: seq<bv8> -> Library<seq<PollResponse>>)
    returns (r: Library<PollResult>)
    modifies file
    ensures r == TranscribeBytes(service, old(file.Remaining()))
    ensures file.pos == if old(file.pos) <= |file.data| then |file.data| else old(file.pos)
  {
    var audio := file.Read();
    match service(audio)
    case Exn =>
      r := Exn;
    case Ok(responses) =>
      var result, polls := PollTranscript(responses);
      r := Ok(result);
  }

  /** What `extract_audio_from_video` yields for `video`: ffmpeg's failure
      (a raised `CalledProcessError`), or the transcription of the mono 16 kHz
      audio track it wrote. */
  function DemuxAndTranscribe(
    ffmpeg: seq<bv8> -> Library<seq<bv8>>,
    service: seq<bv8> -> Library<seq<PollResponse>>,
    video: seq<bv8>): Library<PollResult>
  {
    match ffmpeg(video)
    case Exn => Exn
    case Ok(wav) => TranscribeBytes(service, wav)
  }

  /** `extract_audio_from_video(file)`: read the video, extract its audio track,
      open the track as a fresh file and transcribe it. */
  method ExtractAudioFromVideo(
    file: Stream,
    ffmpeg: seq<bv8> -> Library<seq<bv8>>,
    service: seq<bv8> -> Library<seq<PollResponse>>)
    returns (r: Library<PollResult>)
    modifies file
    ensures r == DemuxAndTranscribe(ffmpeg, service, old(file.Remaining()))
    ensures file.pos == if old(file.pos) <= |file.data| then |file.data| else old(file.pos)
  {
    var video := file.Read();
    match ffmpeg(video)
    case Exn =>
      r := Exn;
    case Ok(wav) =>
      var audioFile := new Stream(wav);
      r := TranscribeWithAssemblyAI(audioFile, service);
  }
}
