/** The stateful part of the transcription server: the transcript event
    handler, whose methods update its fields in place, and the server's
    module-level state (the active flag, the poll buffer, the audio queue and
    the running task) with the start, stop, poll and send-audio handlers and
    the queue-draining writer. */
module Transcriber {
  import opened Text
  import opened Windowing
  import opened Accumulator

  type Bytes = seq<bv8>

  /** A transcript event as the recognition service delivers it: results,
      each with alternative hypotheses. */
  datatype Alternative = Alternative(transcript: string)
  datatype TranscriptResult = TranscriptResult(alternatives: seq<Alternative>)
  datatype TranscriptEvent = TranscriptEvent(results: seq<TranscriptResult>)

  /** An audio upload after base64 decoding: the bytes, or the message of the
      decoding error. */
  datatype Payload = Decoded(bytes: Bytes) | DecodeError(reason: string)

  function AltTexts(alts: seq<Alternative>): (r: seq<string>)
    ensures |r| == |alts|
    ensures forall k :: 0 <= k < |alts| ==> r[k] == alts[k].transcript
  {
    if alts == [] then [] else AltTexts(alts[..|alts| - 1]) + [alts[|alts| - 1].transcript]
  }

  /** The transcripts of every alternative of every result, in order. */
  function Transcripts(results: seq<TranscriptResult>): seq<string> {
    if results == [] then []
    else Transcripts(results[..|results| - 1]) + AltTexts(results[|results| - 1].alternatives)
  }

  lemma {:induction false} RunAltsSnoc(s: Acc, done: seq<string>, alts: seq<Alternative>, j: nat)
    requires j < |alts|
    ensures Run(s, done + AltTexts(alts[..j + 1]))
            == Step(Run(s, done + AltTexts(alts[..j])), alts[j].transcript)
  {
    assert alts[..j + 1][..j] == alts[..j];
    assert done + AltTexts(alts[..j + 1]) == (done + AltTexts(alts[..j])) + [alts[j].transcript];
    RunSnoc(s, done + AltTexts(alts[..j]), alts[j].transcript);
  }

  lemma TranscriptsSnoc(results: seq<TranscriptResult>, i: nat)
    requires i < |results|
    ensures Transcripts(results[..i + 1])
            == Transcripts(results[..i]) + AltTexts(results[i].alternatives)
  {
    assert results[..i + 1][..i] == results[..i];
  }

  /** The string the final flush hands to the store: the carry and the whole
      buffer, space-joined, when words remain; nothing otherwise. */
  function FlushText(c: Chunker): (r: seq<string>)
    ensures c.buffer == [] <==> r == []
    ensures c.buffer != [] ==> r == [TextOf(Flush(c).log[|c.log|])]
  {
    if c.buffer == [] then [] else [Join(Carry(c.prevEnd) + c.buffer)]
  }

  /** How a stop request ends: with a reply, or by raising the exception the
      awaited task ended with. */
  datatype StopReply = Replied(message: string) | Raised

  class EventHandler {
    var currentWords: seq<string>
    var previousChunkEnd: seq<string>
    var lastTranscript: string
    /** Every string handed to the store, in submission order. */
    ghost var submitted: seq<string>
    /** The windows behind `submitted`, one per submitted string. */
    ghost var windows: seq<Window>

    ghost predicate Valid()
      reads this
    {
      && |submitted| == |windows|
      && forall i :: 0 <= i < |windows| ==> submitted[i] == TextOf(windows[i])
    }

    ghost function Chunks(): Chunker
      reads this
    {
      Chunker(currentWords, previousChunkEnd, windows)
    }

    /** Everything one alternative touches, including the server's poll
        buffer. */
    ghost function State(g: Server): Acc
      reads this, g
    {
      Acc(Chunks(), lastTranscript, g.currentTranscription)
    }

    constructor ()
      ensures Valid()
      ensures Chunks() == Empty && lastTranscript == "" && submitted == []
    {
      currentWords := [];
      previousChunkEnd := [];
      lastTranscript := "";
      submitted := [];
      windows := [];
    }

    /** Persistence: the store call itself is outside the model; the string
        is recorded as submitted. */
    method UpsertToVectorDb(chunk: string)
      modifies this`submitted
      ensures submitted == old(submitted) + [chunk]
    {
      submitted := submitted + [chunk];
    }

    /** Every alternative of every result, in order, as `HandleAlternative`
        describes. */
    method HandleTranscriptEvent(ev: TranscriptEvent, g: Server)
      requires Valid()
      modifies this, g`currentTranscription
      ensures Valid()
      ensures State(g) == Run(old(State(g)), Transcripts(ev.results))
      ensures |old(submitted)| <= |submitted| && submitted[..|old(submitted)|] == old(submitted)
    {
      ghost var s0 := State(g);
      ghost var sub0 := submitted;
      var i := 0;
      while i < |ev.results|
        invariant 0 <= i <= |ev.results|
        invariant Valid()
        invariant State(g) == Run(s0, Transcripts(ev.results[..i]))
      {
        var alts := ev.results[i].alternatives;
        ghost var done := Transcripts(ev.results[..i]);
        var j := 0;
        assert done + AltTexts(alts[..0]) == done;
        while j < |alts|
          invariant 0 <= j <= |alts|
          invariant Valid()
          invariant State(g) == Run(s0, done + AltTexts(alts[..j]))
        {
          HandleAlternative(alts[j].transcript, g);
          RunAltsSnoc(s0, done, alts, j);
          j := j + 1;
        }
        assert alts[..j] == alts;
        TranscriptsSnoc(ev.results, i);
        i := i + 1;
      }
      assert ev.results[..i] == ev.results;
      RunKeepsLog(s0, Transcripts(ev.results));
      assert submitted[..|sub0|] == sub0 by {
        forall k | 0 <= k < |sub0| ensures submitted[k] == sub0[k] {
          assert windows[..|sub0|][k] == s0.chunker.log[k];
        }
      }
    }

    /** One alternative: deduplicate against the last accepted transcript,
        append the new words and, when there are any, remember the
        alternative and overwrite the poll buffer; then store at most one
        window. */
    method HandleAlternative(transcript: string, g: Server)
      requires Valid()
      modifies this, g`currentTranscription
      ensures Valid()
      ensures State(g) == Step(old(State(g)), transcript)
    {
      var newText := transcript;
      if StartsWith(newText, lastTranscript) {
        newText := Strip(newText[|lastTranscript|..]);
      }
      var newWords := Split(newText);
      if newWords != [] {
        currentWords := currentWords + newWords;
        lastTranscript := transcript;
        g.currentTranscription := newText;
      }
      assert State(g) == Absorb(old(State(g)), transcript);
      if |currentWords| >= ChunkSize {
        StoreChunk();
      }
    }

    /** `store_chunk`: below the threshold nothing changes; otherwise one
        window is built, submitted as its space-joined text, its last
        `OverlapSize` words are kept and the buffer drops its first
        `ChunkSize` words. */
    method StoreChunk()
      requires Valid()
      modifies this
      ensures Valid()
      ensures Chunks() == Store(old(Chunks()))
      ensures lastTranscript == old(lastTranscript)
    {
      if |currentWords| < ChunkSize {
        return;
      }
      var chunkStart := Max(0, |previousChunkEnd| - OverlapSize);
      var overlap := previousChunkEnd[chunkStart..];
      var newChunkWords := overlap + currentWords[..ChunkSize];
      ghost var w := Window(overlap, currentWords[..ChunkSize]);
      previousChunkEnd := LastWords(newChunkWords, OverlapSize);
      currentWords := currentWords[ChunkSize..];
      var chunkText := Join(newChunkWords);
      UpsertToVectorDb(chunkText);
      windows := windows + [w];
    }

    /** `final_flush`: when words remain, exactly one string — the carry and
        the whole buffer, space-joined — is submitted; otherwise nothing. The
        buffer itself is left as it is. */
    method FinalFlush()
      requires Valid()
      modifies this`submitted, this`windows
      ensures Valid()
      ensures Chunks() == Flush(old(Chunks()))
      ensures submitted == old(submitted) + FlushText(old(Chunks()))
    {
      if currentWords != [] {
        var chunkStart := Max(0, |previousChunkEnd| - OverlapSize);
        var chunkText := Join(previousChunkEnd[chunkStart..] + currentWords);
        UpsertToVectorDb(chunkText);
        windows := windows + [Window(previousChunkEnd[chunkStart..], currentWords)];
      }
    }
  }

  /** The server's module-level state. */
  class Server {
    var transcriptionActive: bool
    var currentTranscription: string
    var audioQueue: seq<Bytes>
    /** The running transcription task, seen through its event handler;
        `null` when there is none. */
    var transcriptionTask: EventHandler?
    /** Audio sent into the recognition service's input stream, in order. */
    ghost var streamed: seq<Bytes>

    /** An active server has a task; a task that ended with an exception
        stays recorded after the stop that raised it. */
    ghost predicate Valid()
      reads this, transcriptionTask
    {
      && (transcriptionActive ==> transcriptionTask != null)
      && (transcriptionTask != null ==> transcriptionTask.Valid())
    }

    constructor ()
      ensures Valid()
      ensures !transcriptionActive && currentTranscription == "" && audioQueue == []
      ensures streamed == [] && transcriptionTask == null
    {
      transcriptionActive := false;
      currentTranscription := "";
      audioQueue := [];
      transcriptionTask := null;
      streamed := [];
    }

    /** Start: a no-op while a session is active; otherwise the flag is set,
        the poll buffer cleared and a task with a fresh handler is created.
        Audio still queued from an earlier session is kept. */
    method StartTranscription() returns (message: string)
      requires Valid()
      modifies this
      ensures Valid()
      ensures old(transcriptionActive) ==>
                message == "Transcription already active" && unchanged(this)
      ensures !old(transcriptionActive) ==>
                && message == "Transcription started"
                && transcriptionActive && currentTranscription == ""
                && audioQueue == old(audioQueue) && streamed == old(streamed)
                && fresh(transcriptionTask)
                && transcriptionTask.Chunks() == Empty
                && transcriptionTask.lastTranscript == ""
                && transcriptionTask.submitted == []
    {
      if transcriptionActive {
        return "Transcription already active";
      }
      transcriptionActive := true;
      currentTranscription := "";
      transcriptionTask := new EventHandler();
      return "Transcription started";
    }

    /** Stop: a no-op while no session is active; otherwise the flag is
        cleared and the task awaited. Whether it completed or ended with an
        exception, its last act is the handler's final flush. A completed task
        is forgotten and the stop replies; an exception is not caught, so the
        stop raises it and the task stays recorded. `taskFailed` says which
        way the task ended. */
    method StopTranscription(taskFailed: bool) returns (reply: StopReply)
      requires Valid()
      modifies this, transcriptionTask
      ensures Valid()
      ensures !old(transcriptionActive) ==>
                && reply == Replied("No active transcription") && unchanged(this)
                && (transcriptionTask != null ==> unchanged(transcriptionTask))
      ensures old(transcriptionActive) ==>
                && !transcriptionActive
                && currentTranscription == old(currentTranscription)
                && audioQueue == old(audioQueue) && streamed == old(streamed)
                && old(transcriptionTask).Valid()
                && old(transcriptionTask).Chunks() == Flush(old(transcriptionTask.Chunks()))
                && old(transcriptionTask).lastTranscript == old(transcriptionTask.lastTranscript)
                && old(transcriptionTask).submitted
                     == old(transcriptionTask.submitted) + FlushText(old(transcriptionTask.Chunks()))
      ensures old(transcriptionActive) && !taskFailed ==>
                reply == Replied("Transcription stopped") && transcriptionTask == null
      ensures old(transcriptionActive) && taskFailed ==>
                reply == Raised && transcriptionTask == old(transcriptionTask)
    {
      if !transcriptionActive {
        return Replied("No active transcription");
      }
      transcriptionActive := false;
      if transcriptionTask != null {
        transcriptionTask.FinalFlush();
        if taskFailed {
          return Raised;
        }
        transcriptionTask := null;
      }
      return Replied("Transcription stopped");
    }

    /** Poll: the text shown since the last poll, which is then cleared. */
    method GetTranscription() returns (transcription: string)
      modifies this`currentTranscription
      ensures transcription == old(currentTranscription)
      ensures currentTranscription == ""
    {
      transcription := currentTranscription;
      currentTranscription := "";
    }

    /** Audio upload: queued at the back only while a session is active and
        the payload decoded. */
    method SendAudio(payload: Payload) returns (message: string)
      modifies this`audioQueue
      ensures !transcriptionActive ==>
                message == "Transcription not active" && audioQueue == old(audioQueue)
      ensures transcriptionActive && payload.Decoded? ==>
                message == "Audio data received" && audioQueue == old(audioQueue) + [payload.bytes]
      ensures transcriptionActive && payload.DecodeError? ==>
                message == "Error processing audio: " + payload.reason
                && audioQueue == old(audioQueue)
    {
      if !transcriptionActive {
        return "Transcription not active";
      }
      match payload
      case DecodeError(reason) =>
        return "Error processing audio: " + reason;
      case Decoded(bytes) =>
        audioQueue := audioQueue + [bytes];
        return "Audio data received";
    }

    /** The writer loop, up to the point where it finds the queue empty and
        would sleep: while active, chunks leave the queue from the front and
        go into the input stream in the same order. */
    method WriteChunks()
      modifies this`audioQueue, this`streamed
      ensures !transcriptionActive ==> audioQueue == old(audioQueue) && streamed == old(streamed)
      ensures transcriptionActive ==>
                audioQueue == [] && streamed == old(streamed) + old(audioQueue)
    {
      while transcriptionActive && audioQueue != []
        invariant streamed + audioQueue == old(streamed) + old(audioQueue)
        invariant !transcriptionActive ==> audioQueue == old(audioQueue) && streamed == old(streamed)
        decreases |audioQueue|
      {
        var chunk := audioQueue[0];
        audioQueue := audioQueue[1..];
        streamed := streamed + [chunk];
      }
    }
  }

  /** A session as a client sees it: a second start and a stop after stop
      are no-ops, audio leaves the queue in upload order, audio sent while
      stopped is refused, and a poll empties the poll buffer. A stop whose
      task failed raises and leaves the server inactive, so a later stop is a
      no-op and a later start opens a new session. */
  method ClientSession(a: Bytes, b: Bytes, c: Bytes)
  {
    var server := new Server();
    var m := server.StartTranscription();
    assert m == "Transcription started";
    m := server.StartTranscription();
    assert m == "Transcription already active";
    m := server.SendAudio(Decoded(a));
    m := server.SendAudio(Decoded(b));
    server.WriteChunks();
    assert server.streamed == [a, b];
    var text := server.GetTranscription();
    assert text == "";
    var r := server.StopTranscription(false);
    assert r == Replied("Transcription stopped");
    m := server.SendAudio(Decoded(c));
    assert m == "Transcription not active" && server.audioQueue == [];
    r := server.StopTranscription(false);
    assert r == Replied("No active transcription");
    m := server.StartTranscription();
    r := server.StopTranscription(true);
    assert r == Raised && !server.transcriptionActive && server.transcriptionTask != null;
    var h := server.transcriptionTask;
    ghost var flushed := h.submitted;
    r := server.StopTranscription(false);
    assert r == Replied("No active transcription") && h.submitted == flushed;
    m := server.StartTranscription();
    assert m == "Transcription started";
  }
}
