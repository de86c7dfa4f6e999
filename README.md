# RealTimeRAG transcription core, in Dafny

The server turns a live stream of recognition results into overlapping text
windows, and hands each window to a vector store. This project models the
part of `main.py` that does that and proves properties about it:

- **Delta deduplication** (`handle_transcript_event`). Every alternative of
  every result is compared with the last accepted transcript. When it extends
  that transcript, only the part after it is taken, stripped and split into
  words; otherwise the whole alternative is taken. New words are appended to
  the word buffer, and the taken text replaces the text shown to pollers.
- **Overlapping windows** (`store_chunk`, `final_flush`). Once 200 words are
  buffered, they become one window together with up to 70 words carried over
  from the previous window. That window's last 70 words become the next
  carry. At the end of a session, the remaining words and the carry go out
  as one last window.
- **Session lifecycle**. The module-level state is the active flag, the poll
  buffer, the audio queue and the running task. Around it sit the start,
  stop, poll and send-audio handlers and the writer that drains the audio
  queue into the recognition stream.

Layout:

- `text.dfy` (module `Text`) gives Python's argument-less `str.split()` and
  `str.strip()`, plus `startswith` and `" ".join`, over `seq<char>`. It uses
  Python's whitespace set.
- `windowing.dfy` (module `Windowing`) models the chunker on values. `Store`
  and `Flush` are pure functions. `Overlapping` is the invariant every
  reachable chunker keeps. A ghost log of windows records what was
  submitted.
- `accumulator.dfy` (module `Accumulator`) models one alternative as a pure
  step: `NewText`, `Absorb` and `Step`. `Run` runs a sequence of
  alternatives and `Fed` collects every word appended while doing so.
- `transcriber.dfy` (module `Transcriber`) holds the imperative part.
  - Class `EventHandler` has the handler's fields (`current_words`,
    `previous_chunk_end`, `last_transcript`) and its methods.
  - Class `Server` has the module's globals and the HTTP handlers.
  - The handler's methods, and the flush inside a stop, are proved against
    the pure functions. For example, `HandleTranscriptEvent` ends in
    `Run(old state, transcripts)`, and `StoreChunk` ends in
    `Store(old chunker)`. The other server handlers state their effect on
    the server's fields directly.

Two consequences of the code are worth knowing:

- A poll after "hello" and then "hello world" returns `world`, with no
  leading space, because main.py:54 strips the delta and main.py:60 stores it.
- Every alternative of every result goes through the prefix rule
  (main.py:49-50), not only the first alternative of a result.

## Model

| member | source | states |
|---|---|---|
| Text.StartsWith | main.py:53 | `startswith`: the prefix fits and the string opens with it; every string starts with the empty string (defined by its body, used by `NewText`, `AbsorbExtension` and `AbsorbReset`) |
| Text.Split | main.py:55 | `str.split()`; its contract is carried by `SplitWords`, `SplitAppend`, `SplitWord`, `SplitJoin` and `SplitStrip` |
| Text.LStrip | main.py:54 | `str.lstrip()`, the input after `LeadingSpace` characters; see `LeadingSpace` and `SplitStrip` |
| Text.RStrip | main.py:54 | `str.rstrip()`, the first `TrimmedLength` characters; see `TrimmedLength` and `SplitStrip` |
| Text.Strip | main.py:54 | `str.strip()`; its contract is carried by `StripEnds`, `StripSlice`, `StripWord` and `SplitStrip` |
| Text.Join | main.py:72 | `" ".join`; its contract is carried by `SplitJoin` (and `SubmittedWords`) |
| Text.SplitWords | main.py:55 | `split()`: every element is a word (non-empty, no whitespace), and the result is empty exactly when the string is all whitespace |
| Text.WordLen | main.py:55 | the length of the leading non-whitespace run: everything before it is non-space and the character after it is whitespace |
| Text.LeadingSpace | main.py:54 | the whitespace run that `lstrip()` drops: every character before it is whitespace, and the character after it is not |
| Text.TrimmedLength | main.py:54 | the length `rstrip()` keeps: every character after it is whitespace, and the last kept character is not |
| Text.StripEnds | main.py:54 | `strip()` neither starts nor ends with whitespace |
| Text.StripSlice | main.py:54 | `strip()` is the slice of the input that starts after the leading whitespace, and everything cut off on either side is whitespace |
| Text.StripWord | main.py:54 | a word strips to itself |
| Text.SplitAppend | main.py:55 | splitting distributes over concatenation when the two parts meet at whitespace |
| Text.SplitWord | main.py:55 | a single word splits into itself |
| Text.SplitJoin | main.py:72 | round trip: splitting the space-joined words gives the words back |
| Text.SplitStrip | main.py:54-55 | stripping before splitting never changes the words |
| Windowing.Carry | main.py:67-68 | the carry is at most the last 70 words of the previous window's tail, a suffix of it |
| Windowing.LastWords | main.py:70 | `ws[-n:]` is a suffix of `ws` with `min(n, len)` elements |
| Windowing.Store | main.py:64-73 | below 200 buffered words, nothing changes; otherwise exactly one window is appended, holding the carry and the first 200 buffered words, which leave the buffer; the new carry source is buffer words 130..200 |
| Windowing.Flush | main.py:75-79 | an empty buffer submits nothing; otherwise one window of the carry and the whole buffer is appended; the buffer and the carry are left unchanged |
| Windowing.StorePreserves | main.py:64-73 | `store_chunk` keeps the overlap invariant: each window takes 200 buffer words, the first carries nothing, each later one carries its predecessor's last 70 words, and the carry source is the last window's tail |
| Windowing.WindowSizes | main.py:67-71 | submitted windows have 200 words, then 270 each |
| Windowing.CarryIsPrevEnd | main.py:67-68 | the `max(0, ...)` slice never cuts anything: the carry is the whole previous tail, with 0 words before the first window and 70 after it |
| Windowing.SubmittedWords | main.py:72 | splitting each submitted string gives back exactly its window's words |
| Windowing.StoreConserves | main.py:69-71 | a store loses or duplicates nothing: the words the windows took, followed by the buffer, are unchanged |
| Windowing.FlushConserves | main.py:76-78 | after the flush, the words the windows took account for everything that was buffered |
| Windowing.FiveHundredWords | main.py:64-79 | 500 buffered words give windows of 200 and 270 words (the second carrying words 130..200), leave 100 words that a further store ignores, and flush as a 170-word window |
| Accumulator.Absorb | main.py:53-60 | the handler's take on one alternative before any store; its contract is carried by `AbsorbExtension`, `AbsorbReset`, `PrefixNotReAdded`, `FragmentedWord` and `AbsorbPreserves` |
| Accumulator.Run | main.py:49-50 | alternatives processed one `Step` at a time, in order; its contract is carried by `RunSnoc`, `RunOverlapping`, `RunConserves` and `SessionLosesNothing` |
| Accumulator.NewText | main.py:51-54 | an alternative that extends the last transcript contributes the words after it; any other alternative contributes itself unchanged |
| Accumulator.Step | main.py:51-62 | one alternative stores at most one window, and stores one exactly when the buffer plus the new words reach 200 |
| Accumulator.RunSnoc | main.py:49-50 | alternatives are processed in order: running `alts + [a]` is running `alts` and then one step on `a` |
| Accumulator.AbsorbExtension | main.py:53-60 | extension: exactly the words after the shared prefix are appended and the windows are untouched; with no new words nothing changes at all, otherwise the alternative becomes the last transcript and the stripped delta becomes the shown text |
| Accumulator.AbsorbReset | main.py:53-60 | reset: an alternative that does not extend the last transcript appends all its words after the buffer and is shown whole; with no words nothing changes |
| Accumulator.PrefixNotReAdded | main.py:53-57 | at a word boundary, the words of the last transcript followed by the appended words are exactly the words of the alternative: the shared prefix is never re-added |
| Accumulator.FragmentedWord | main.py:53-57 | the prefix test works on characters: when the alternative continues the last transcript's final word, the continuation is appended as a word of its own and shown alone (after "hello wor", "hello world" appends "ld") |
| Accumulator.AbsorbPreserves | main.py:55-57 | appending new words keeps the overlap invariant (the buffer stays made of words) |
| Accumulator.RunOverlapping | main.py:46-73 | every chunker reachable through the handler keeps the overlap invariant |
| Accumulator.StepConserves | main.py:55-62 | one alternative adds exactly its new words to the words taken by windows plus the buffer |
| Accumulator.RunKeepsLog | main.py:46-73 | over any sequence of alternatives, the windows already in the log stay, in place, at its front; windows are only added |
| Accumulator.RunConserves | main.py:46-73 | over any sequence of alternatives, the words taken by windows plus the buffer grow by exactly every word appended, in order |
| Accumulator.SessionLosesNothing | main.py:46-79 | for a session that starts from a fresh handler, after the final flush the windows' buffer words are exactly every word appended; window sizes are 200 then 270; the flushed window carries the last window's last 70 words |
| Accumulator.StepBelowThreshold | main.py:61-62 | while the buffer stays below 200 words, a step only absorbs |
| Accumulator.FirstText | main.py:51-55 | a single word given to a fresh handler is all of its new text |
| Accumulator.NextText | main.py:53-55 | an alternative extending the last transcript by a space and a word contributes exactly that word, without the space |
| Accumulator.FirstWord | main.py:51-60 | a fresh handler given a single word (such as "hello") buffers it, remembers it as the last transcript and shows it |
| Accumulator.NextWord | main.py:51-60 | below the threshold, an alternative extending the last transcript by a space and one word (after "hello", "hello world") appends that word once and shows it without the space |
| Transcriber.Transcripts | main.py:49-50 | the transcripts of every alternative of every result, in order; see `TranscriptsSnoc` and `HandleTranscriptEvent` |
| Transcriber.FlushText | main.py:76-79 | the final flush submits nothing exactly when the buffer is empty, and otherwise the joined text of the window `Flush` appends |
| Transcriber.AltTexts | main.py:50-51 | the transcripts of a result's alternatives, one per alternative, in order |
| Transcriber.RunAltsSnoc | main.py:50-51 | handling the next alternative of a result is one more step of the run |
| Transcriber.TranscriptsSnoc | main.py:49-50 | the transcripts of one more result are those before it followed by its alternatives' transcripts |
| Transcriber.EventHandler.constructor | main.py:37-43 | a fresh handler has an empty buffer, no carry, no last transcript and nothing submitted |
| Transcriber.EventHandler.UpsertToVectorDb | main.py:81-86 | the chunk is recorded as submitted after everything submitted before it |
| Transcriber.EventHandler.HandleTranscriptEvent | main.py:46-62 | the handler and the poll buffer end in the state `Run` gives for every alternative of every result in order, the submitted strings stay the joined windows, and the strings submitted before the event stay, in place, at the front of the log |
| Transcriber.EventHandler.HandleAlternative | main.py:51-62 | the handler and the poll buffer end in the state one `Step` gives |
| Transcriber.EventHandler.StoreChunk | main.py:64-73 | the handler's chunker ends as `Store` of its old chunker, each submission being its window's joined text |
| Transcriber.EventHandler.FinalFlush | main.py:75-79 | the chunker ends as `Flush` of the old one; the submitted log grows by exactly one string, the carry and the whole buffer joined, when words remain, and by nothing otherwise |
| Transcriber.Server.constructor | main.py:31-34 | inactive, an empty poll buffer, an empty queue and no task |
| Transcriber.Server.StartTranscription | main.py:120-130 | a no-op with "Transcription already active" while a session is active; otherwise the server becomes active, the poll buffer is cleared, a fresh handler is created, the queue is kept, and the reply is "Transcription started" |
| Transcriber.Server.StopTranscription | main.py:132-147 | a no-op replying "No active transcription" while inactive, which leaves the server and any task still recorded unchanged (no second flush); otherwise the server becomes inactive and the task's handler is flushed (its log grows by exactly the flush text) whether the task completed or failed; the poll buffer and queue are kept; a completed task is forgotten and the reply is "Transcription stopped"; a failed task's exception propagates (`Raised`) and the task stays set |
| Transcriber.Server.GetTranscription | main.py:149-154 | a poll returns the shown text and clears it |
| Transcriber.Server.SendAudio | main.py:156-175 | while inactive the upload is refused with "Transcription not active"; a decoded upload goes to the back of the queue; a decoding error is reported in the reply and queues nothing |
| Transcriber.Server.WriteChunks | main.py:88-96 | while active, the queue is drained from the front into the input stream in order; while inactive nothing moves |

## Left out

- Concurrency is not modelled: the asyncio tasks, `asyncio.gather`, the upsert `Semaphore(5)` and fire-and-forget `create_task`. Every operation runs to completion, one at a time.
- The vector store call (`async_update_db`) and the printing of its failures are outside the model. A submission is recorded as a string in a ghost log.
- The Amazon Transcribe client, the stream set-up, `handle_events` dispatching to `handle_transcript_event`, and `end_stream` are foreign calls and are not modelled. An event is a parameter.
- FastAPI routing, JSON responses, CORS and the `/` root endpoint are not modelled. Each handler returns its message string; a raised exception is the `Raised` reply, and the HTTP error it becomes is not modelled.
- Base64 decoding is not modelled. An upload arrives as a `Payload` that is either the decoded bytes or the decoder's error message.
- Transcriber.Server.StopTranscription: the 5-second `wait_for` timeout and task cancellation are not modelled. The task is treated as ending, with its final flush, inside the stop call; the caller says whether it completed or ended with an exception.
- Transcriber.Server.WriteChunks: models one pass of the writer up to the point where it finds the queue empty. The 0.1-second sleep and the repetition after it are not modelled.
- `chunk_size` and `overlap_size` are fixed at 200 and 70, as the handler's constructor sets them.
- Strings are sequences of Unicode scalar values. The whitespace set is Python's `str.isspace` set; no normalisation is modelled.
